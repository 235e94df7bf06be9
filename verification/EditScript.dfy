/** Model of external_libs/editscript.h: the Myers diff engine. */
module EditScript {
  import Seqs
  import opened EditGraph
  import opened MiddleSnake
  import opened SnakeRecord
  import opened Edits

  // ----- what a block of edits for part of the input must be

  /** block leads from (b1, b2) to (e1, e2), is cut nowhere without need, and is as cheap as can be. */
  ghost predicate Solves<T>(
      tokens1: seq<T>, tokens2: seq<T>, block: seq<Edit>, b1: int, e1: int, b2: int, e2: int) {
    && 0 <= b1 <= e1 <= |tokens1| && 0 <= b2 <= e2 <= |tokens2|
    && Path(tokens1, tokens2, block, b1, b2, e1, e2)
    && NoNeighboursAlike(block)
    && Cost(block) == Distance(tokens1[b1..e1], tokens2[b2..e2])
  }

  lemma EqualSolves<T>(tokens1: seq<T>, tokens2: seq<T>, b1: int, e1: int, b2: int, e2: int)
    requires 0 <= b1 <= e1 <= |tokens1| && 0 <= b2 <= e2 <= |tokens2|
    requires tokens1[b1..e1] == tokens2[b2..e2]
    ensures Solves(tokens1, tokens2, if b1 < e1 then [Edit(EQUALS, b1, e1)] else [], b1, e1, b2, e2)
  {
    var a := tokens1[b1..e1];
    StripSuffix([], [], a);
    assert [] + a == a;
    assert e1 - b1 == |a| == e2 - b2;
    if b1 < e1 {
      PathSingle(tokens1, tokens2, Edit(EQUALS, b1, e1), b1, b2, e1, e2);
    }
  }

  lemma OneSidedSolves<T>(tokens1: seq<T>, tokens2: seq<T>, e: Edit, b1: int, e1: int, b2: int, e2: int)
    requires 0 <= b1 <= e1 <= |tokens1| && 0 <= b2 <= e2 <= |tokens2|
    requires (b1 == e1 && b2 < e2 && e == Edit(INSERT, b2, e2)) || (b2 == e2 && b1 < e1 && e == Edit(DELETE, b1, e1))
    ensures Solves(tokens1, tokens2, [e], b1, e1, b2, e2)
  {
    PathSingle(tokens1, tokens2, e, b1, b2, e1, e2);
    assert [e][..0] == [];
  }

  /** Nothing in common: delete everything, insert everything. */
  lemma ReplaceSolves<T>(tokens1: seq<T>, tokens2: seq<T>, b1: int, e1: int, b2: int, e2: int)
    requires 0 <= b1 < e1 <= |tokens1| && 0 <= b2 < e2 <= |tokens2|
    requires Distance(tokens1[b1..e1], tokens2[b2..e2]) == (e1 - b1) + (e2 - b2)
    ensures Solves(tokens1, tokens2, [Edit(DELETE, b1, e1), Edit(INSERT, b2, e2)], b1, e1, b2, e2)
  {
    var d, i := Edit(DELETE, b1, e1), Edit(INSERT, b2, e2);
    PathSingle(tokens1, tokens2, d, b1, b2, e1, b2);
    PathSingle(tokens1, tokens2, i, e1, b2, e1, e2);
    PathConcat(tokens1, tokens2, [d], [i], b1, b2, e1, b2, e1, e2);
    CostConcat([d], [i]);
    assert [d] + [i] == [d, i];
    assert [d][..0] == [] && [i][..0] == [];
  }

  /** One run occurs inside the other: keep that part. */
  lemma SubstringSolves<T>(
      tokens1: seq<T>, tokens2: seq<T>, f: Edit, k: Edit, g: Edit, b1: int, e1: int, b2: int, e2: int,
      x: int, y: int, x': int, y': int)
    requires 0 <= b1 <= e1 <= |tokens1| && 0 <= b2 <= e2 <= |tokens2|
    requires Step(tokens1, tokens2, f, b1, b2, x, y) && Step(tokens1, tokens2, k, x, y, x', y')
    requires Step(tokens1, tokens2, g, x', y', e1, e2)
    requires k.operation == EQUALS && f.operation == g.operation != EQUALS
    ensures Solves(tokens1, tokens2, [f, k, g], b1, e1, b2, e2)
  {
    PathSingle(tokens1, tokens2, f, b1, b2, x, y);
    PathSingle(tokens1, tokens2, k, x, y, x', y');
    PathSingle(tokens1, tokens2, g, x', y', e1, e2);
    PathConcat(tokens1, tokens2, [f], [k], b1, b2, x, y, x', y');
    PathConcat(tokens1, tokens2, [f] + [k], [g], b1, b2, x', y', e1, e2);
    CostConcat([f], [k]);
    CostConcat([f] + [k], [g]);
    assert [f] + [k] + [g] == [f, k, g];
    FreeOfCost(f);
    FreeOfCost(k);
    FreeOfCost(g);
    hide Path, Cost, Fwd;
    PathCostsDistance(tokens1, tokens2, [f, k, g], b1, b2, e1, e2);
    CostBoundsDiagonal(tokens1[b1..e1], tokens2[b2..e2], e1 - b1, e2 - b2);
  }

  /** A cheapest split divides the distance. */
  lemma SplitDistance<T>(
      tokens1: seq<T>, tokens2: seq<T>, b1: int, e1: int, b2: int, e2: int, x: int, y: int)
    requires 0 <= b1 <= e1 <= |tokens1| && 0 <= b2 <= e2 <= |tokens2|
    requires x != -1 && SplitsCheapest(tokens1[b1..e1], tokens2[b2..e2], x, y)
    ensures 0 <= x <= e1 - b1 && 0 <= y <= e2 - b2
    ensures Distance(tokens1[b1..e1], tokens2[b2..e2])
         == Distance(tokens1[b1..b1 + x], tokens2[b2..b2 + y]) + Distance(tokens1[b1 + x..e1], tokens2[b2 + y..e2])
  {
    var a, b := tokens1[b1..e1], tokens2[b2..e2];
    hide Fwd, Bwd, Distance;
    DistanceOfPrefixes(a, b, x, y);
    DistanceOfSuffixes(a, b, x, y);
    SliceOfSlice(tokens1, b1, e1, 0, x);
    SliceOfSlice(tokens2, b2, e2, 0, y);
    SliceOfSlice(tokens1, b1, e1, x, e1 - b1);
    SliceOfSlice(tokens2, b2, e2, y, e2 - b2);
  }

  /** Two solved parts that meet on a cheapest path solve the whole. */
  lemma SplitSolves<T>(
      tokens1: seq<T>, tokens2: seq<T>, s: seq<Edit>, t: seq<Edit>,
      b1: int, e1: int, b2: int, e2: int, x: int, y: int)
    requires 0 <= b1 <= e1 <= |tokens1| && 0 <= b2 <= e2 <= |tokens2|
    requires x != -1 && SplitsCheapest(tokens1[b1..e1], tokens2[b2..e2], x, y)
    requires Solves(tokens1, tokens2, s, b1, b1 + x, b2, b2 + y)
    requires Solves(tokens1, tokens2, t, b1 + x, e1, b2 + y, e2)
    ensures Solves(tokens1, tokens2, Fuse(s, t), b1, e1, b2, e2)
  {
    hide Path, Fuse, Cost, NoNeighboursAlike, Distance, SplitsCheapest;
    SplitDistance(tokens1, tokens2, b1, e1, b2, e2, x, y);
    FusePath(tokens1, tokens2, s, t, b1, b2, b1 + x, b2 + y, e1, e2);
    FuseCost(s, t);
  }

  lemma FreeOfCost(k: Edit)
    ensures Cost([k]) == if k.operation == EQUALS then 0 else k.end - k.start
  {
    assert [k][..0] == [];
  }

  lemma PrefixSolves<T>(
      tokens1: seq<T>, tokens2: seq<T>, t: seq<Edit>, b1: int, e1: int, b2: int, e2: int, n: int)
    requires 0 < n && 0 <= b1 && 0 <= b2 && b1 + n <= |tokens1| && b2 + n <= |tokens2|
    requires tokens1[b1..b1 + n] == tokens2[b2..b2 + n]
    requires Solves(tokens1, tokens2, t, b1 + n, e1, b2 + n, e2)
    requires t != [] ==> t[0].operation != EQUALS
    ensures Solves(tokens1, tokens2, [Edit(EQUALS, b1, b1 + n)] + t, b1, e1, b2, e2)
  {
    var k := Edit(EQUALS, b1, b1 + n);
    PathSingle(tokens1, tokens2, k, b1, b2, b1 + n, b2 + n);
    FreeOfCost(k);
    hide Path, Cost, Distance, Step;
    PathConcat(tokens1, tokens2, [k], t, b1, b2, b1 + n, b2 + n, e1, e2);
    CostConcat([k], t);
    StripPrefix(tokens1[b1..b1 + n], tokens1[b1 + n..e1], tokens2[b2 + n..e2]);
    Seqs.Parts(tokens1, b1, b1 + n, e1);
    Seqs.Parts(tokens2, b2, b2 + n, e2);
  }

  lemma SuffixSolves<T>(
      tokens1: seq<T>, tokens2: seq<T>, t: seq<Edit>, b1: int, e1: int, b2: int, e2: int, n: int)
    requires 0 < n && e1 + n <= |tokens1| && e2 + n <= |tokens2|
    requires Solves(tokens1, tokens2, t, b1, e1, b2, e2)
    requires tokens1[e1..e1 + n] == tokens2[e2..e2 + n]
    ensures Solves(tokens1, tokens2, Fuse(t, [Edit(EQUALS, e1, e1 + n)]), b1, e1 + n, b2, e2 + n)
  {
    var k := Edit(EQUALS, e1, e1 + n);
    PathSingle(tokens1, tokens2, k, e1, e2, e1 + n, e2 + n);
    FreeOfCost(k);
    hide Path, Fuse, Cost, Distance, Step;
    FusePath(tokens1, tokens2, t, [k], b1, b2, e1, e2, e1 + n, e2 + n);
    FuseCost(t, [k]);
    StripSuffix(tokens1[b1..e1], tokens2[b2..e2], tokens1[e1..e1 + n]);
    Seqs.Parts(tokens1, b1, e1, e1 + n);
    Seqs.Parts(tokens2, b2, e2, e2 + n);
  }

  /** A block for runs without a common first token does not start with EQUALS. */
  lemma StartsWithAChange<T>(tokens1: seq<T>, tokens2: seq<T>, t: seq<Edit>, b1: int, e1: int, b2: int, e2: int)
    requires Solves(tokens1, tokens2, t, b1, e1, b2, e2)
    requires b1 < e1 && b2 < e2 ==> tokens1[b1] != tokens2[b2]
    ensures t != [] ==> t[0].operation != EQUALS
    ensures t != [] ==> t[0].start == if t[0].operation == INSERT then b2 else b1
  {
    if t != [] {
      hide Path, Step, Fwd;
      var u, v := PathFirst(tokens1, tokens2, t, b1, b2, e1, e2);
      FirstStep(tokens1, tokens2, t[0], b1, b2, u, v);
      PathSpells(tokens1, tokens2, t[1..], u, v, e1, e2);
    }
  }

  lemma FirstStep<T>(tokens1: seq<T>, tokens2: seq<T>, e: Edit, x: int, y: int, x': int, y': int)
    requires Step(tokens1, tokens2, e, x, y, x', y')
    ensures 0 <= x' <= |tokens1| || e.operation == INSERT
    ensures 0 <= y' <= |tokens2| || e.operation == DELETE
    ensures e.operation == EQUALS ==> x < x' <= |tokens1| && y < y' <= |tokens2| && 0 <= x && 0 <= y && tokens1[x] == tokens2[y]
    ensures e.start == if e.operation == INSERT then y else x
    ensures x <= x' && y <= y'
  {
    if e.operation == EQUALS {
      assert tokens1[x..x'][0] == tokens2[y..y'][0];
    }
  }

  // ----- the vector of edits

  /** InsertEditAt as the code performs it; index is a position in edits or its end. */
  function InsertedAt(edits: seq<Edit>, index: nat, e: Edit): seq<Edit>
    requires index <= |edits|
  {
    if index > 0 && edits[index - 1].operation == e.operation && edits[index - 1].end == e.start then
      edits[index - 1 := edits[index - 1].(end := e.end)]
    else if index < |edits| && edits[index].operation == e.operation && edits[index].end == e.start then
      edits[index := edits[index].(end := e.end)]
    else
      edits[..index] + [e] + edits[index..]
  }

  /** The last edit of the list ends where (x, y) is. */
  ghost predicate EndsAt(edits: seq<Edit>, x: int, y: int) {
    edits != [] ==> edits[|edits| - 1].end == if edits[|edits| - 1].operation == INSERT then y else x
  }

  /** Putting a common prefix back before the block that follows it. The branch that would
      merge it into the following edit is never taken. */
  lemma PrefixInserted(edits: seq<Edit>, t: seq<Edit>, b1: int, b2: int, n: int)
    requires 0 < n && EndsAt(edits, b1, b2)
    requires t != [] ==> t[0].operation != EQUALS
                         && t[0].start == if t[0].operation == INSERT then b2 + n else b1 + n
    ensures Fuse(edits, t) == edits + t
    ensures t != [] ==> Fuse(edits, t)[|edits|].operation != EQUALS
    ensures InsertedAt(Fuse(edits, t), |edits|, Edit(EQUALS, b1, b1 + n)) == Fuse(edits, [Edit(EQUALS, b1, b1 + n)] + t)
  {
    var k := Edit(EQUALS, b1, b1 + n);
    var i := |edits| - 1;
    assert ([k] + t)[0] == k && ([k] + t)[1..] == t;
    assert (edits + t)[..|edits|] == edits && (edits + t)[|edits|..] == t;
    if edits != [] && edits[i].operation == EQUALS && edits[i].end == b1 {
      assert (edits + t)[i := edits[i].(end := k.end)] == edits[..i] + [edits[i].(end := k.end)] + t;
    } else {
      Seqs.Associative(edits, [k], t);
    }
  }

  /** Two runs, not both empty, with no common first and no common last token. */
  ghost predicate MiddlePart<T>(tokens1: seq<T>, tokens2: seq<T>, b1: int, e1: int, b2: int, e2: int) {
    && 0 <= b1 <= e1 <= |tokens1| && 0 <= b2 <= e2 <= |tokens2|
    && (b1 < e1 || b2 < e2)
    && (b1 < e1 && b2 < e2 ==> tokens1[b1] != tokens2[b2] && tokens1[e1 - 1] != tokens2[e2 - 1])
  }

  lemma CutTwice<T>(s: seq<T>, b: int, m: int, e: int)
    requires 0 <= b <= m <= e <= |s|
    ensures s[b..e] == s[b..m] + s[m..e]
    ensures b < m ==> s[b] == s[b..m][0]
  {
  }

  lemma FuseNothing(s: seq<Edit>)
    ensures Fuse(s, []) == s
  {
  }

  lemma FuseThree(s: seq<Edit>, f: Edit, k: Edit, g: Edit)
    requires f.operation != k.operation && k.operation != g.operation
    ensures Fuse(Fuse(Fuse(s, [f]), [k]), [g]) == Fuse(s, [f, k, g])
  {
    FuseAssociative(s, [f], [k]);
    FuseAssociative(s, [f, k], [g]);
    assert Fuse([f], [k]) == [f, k] && Fuse([f, k], [g]) == [f, k, g];
  }

  lemma SuffixMatches<T>(s: seq<T>, t: seq<T>, rs: seq<T>, rt: seq<T>, n: nat)
    requires IsMirror(s, rs) && IsMirror(t, rt) && n <= |s| && n <= |t| && rs[..n] == rt[..n]
    ensures s[|s| - n..] == t[|t| - n..]
    ensures n < |s| && n < |t| ==> (rs[n] == rt[n] <==> s[|s| - n - 1] == t[|t| - n - 1])
  {
    var s', t' := s[|s| - n..], t[|t| - n..];
    forall i | 0 <= i < n ensures s'[i] == t'[i] {
      assert rs[..n][n - 1 - i] == rt[..n][n - 1 - i];
    }
  }

  lemma ReversedIsMirror<T>(s: seq<T>)
    ensures IsMirror(s, Seqs.Reversed(s)) && |Seqs.Reversed(s)| == |s|
  {
  }

  lemma SliceOfSlice<T>(s: seq<T>, b: int, e: int, i: int, j: int)
    requires 0 <= b <= e <= |s| && 0 <= i <= j <= e - b
    ensures s[b..e][i..j] == s[b + i..b + j]
  {
    var l, r := s[b..e][i..j], s[b + i..b + j];
    forall k | 0 <= k < |l| ensures l[k] == r[k] {}
  }

  lemma FirstAndLast<T>(s: seq<T>, b: int, e: int, t: seq<T>, c: int, f: int)
    requires 0 <= b < e <= |s| && 0 <= c < f <= |t| && s[b..e] == t[c..f]
    ensures s[b] == t[c] && s[e - 1] == t[f - 1]
  {
    assert s[b..e][0] == t[c..f][0];
    assert s[b..e][e - b - 1] == t[c..f][f - c - 1];
  }

  lemma FoundInFirst<T>(tokens1: seq<T>, tokens2: seq<T>, b1: int, e1: int, b2: int, e2: int, offset: int)
    requires MiddlePart(tokens1, tokens2, b1, e1, b2, e2) && b2 < e2 && e2 - b2 < e1 - b1
    requires OccursAt(tokens1[b1..e1], tokens2[b2..e2], offset - b1)
    ensures var k := offset + (e2 - b2);
            Solves(tokens1, tokens2, [Edit(DELETE, b1, offset), Edit(EQUALS, offset, k), Edit(DELETE, k, e1)], b1, e1, b2, e2)
  {
    var k := offset + (e2 - b2);
    SliceOfSlice(tokens1, b1, e1, offset - b1, k - b1);
    FirstAndLast(tokens1, offset, k, tokens2, b2, e2);
    SubstringSolves(tokens1, tokens2, Edit(DELETE, b1, offset), Edit(EQUALS, offset, k), Edit(DELETE, k, e1),
                    b1, e1, b2, e2, offset, b2, k, e2);
  }

  lemma FoundInSecond<T>(tokens1: seq<T>, tokens2: seq<T>, b1: int, e1: int, b2: int, e2: int, offset: int)
    requires MiddlePart(tokens1, tokens2, b1, e1, b2, e2) && b1 < e1 && e1 - b1 < e2 - b2
    requires OccursAt(tokens2[b2..e2], tokens1[b1..e1], offset - b2)
    ensures var k := offset + (e1 - b1);
            Solves(tokens1, tokens2, [Edit(INSERT, b2, offset), Edit(EQUALS, b1, e1), Edit(INSERT, k, e2)], b1, e1, b2, e2)
  {
    var k := offset + (e1 - b1);
    SliceOfSlice(tokens2, b2, e2, offset - b2, k - b2);
    FirstAndLast(tokens2, offset, k, tokens1, b1, e1);
    SubstringSolves(tokens1, tokens2, Edit(INSERT, b2, offset), Edit(EQUALS, b1, e1), Edit(INSERT, k, e2),
                    b1, e1, b2, e2, b1, offset, e1, k);
  }

  /** A single token that does not occur in the other run shares nothing with it. */
  lemma SingleTokenApart<T>(text: seq<T>, single: seq<T>)
    requires |single| == 1
    requires forall j :: 0 <= j < |text| ==> !OccursAt(text, single, j)
    ensures Distance(text, single) == |text| + 1
    ensures Distance(single, text) == |text| + 1
  {
    forall i | 0 <= i < |text| ensures text[i] != single[0] {
      assert !OccursAt(text, single, i);
      assert text[i..i + 1] == [text[i]];
    }
    NothingInCommon(text, single, |text|, 1);
    NothingInCommon(single, text, 1, |text|);
  }

  lemma BlockEndsAt<T>(
      tokens1: seq<T>, tokens2: seq<T>, items: seq<Edit>, s: seq<Edit>, b1: int, e1: int, b2: int, e2: int)
    requires Solves(tokens1, tokens2, s, b1, e1, b2, e2) && (b1 < e1 || b2 < e2)
    ensures EndsAt(Fuse(items, s), e1, e2)
  {
    assert s != [];
    assert EndsAt(s, e1, e2);
    hide Solves, Path, Step;
    FuseEndsAt(items, s, e1, e2);
  }

  lemma FuseEndsAt(items: seq<Edit>, s: seq<Edit>, x: int, y: int)
    requires s != [] && EndsAt(s, x, y)
    ensures EndsAt(Fuse(items, s), x, y)
  {
    var r := Fuse(items, s);
    assert |s| > 1 ==> r[|r| - 1] == s[|s| - 1];
  }

  class EditList {
    var items: seq<Edit>

    constructor ()
      ensures items == []
    {
      items := [];
    }

    /** Appends an edit, fusing with the previous one if possible. */
    method AppendEdit(op: Operation, start: int, end: int)
      modifies this
      ensures items == Fuse(old(items), [Edit(op, start, end)])
    {
      if items != [] && items[|items| - 1].operation == op && items[|items| - 1].end == start {
        items := items[|items| - 1 := items[|items| - 1].(end := end)];
      } else {
        items := items + [Edit(op, start, end)];
      }
    }

    /** Inserts an edit at the given position, fusing with a neighbour if possible. */
    method InsertEditAt(index: nat, op: Operation, start: int, end: int)
      requires index <= |items|
      modifies this
      ensures items == InsertedAt(old(items), index, Edit(op, start, end))
    {
      if index > 0 {
        var prevEdit := items[index - 1];
        if prevEdit.operation == op && prevEdit.end == start {
          items := items[index - 1 := prevEdit.(end := end)];
          return;
        }
      }
      if index < |items| {
        var nextEdit := items[index];
        if nextEdit.operation == op && nextEdit.end == start {
          items := items[index := nextEdit.(end := end)];
          return;
        }
      }
      items := items[..index] + [Edit(op, start, end)] + items[index..];
    }
  }

  /** The length of the longest common prefix of two spans. */
  method CommonAffix<T(==)>(span1: seq<T>, span2: seq<T>) returns (n: nat)
    ensures n <= |span1| && n <= |span2| && span1[..n] == span2[..n]
    ensures n < |span1| && n < |span2| ==> span1[n] != span2[n]
  {
    var shorter, longer := span1, span2;
    if |span1| > |span2| {
      shorter, longer := span2, span1;
    }
    n := 0;
    while n < |shorter| && shorter[n] == longer[n]
      invariant n <= |shorter| && shorter[..n] == longer[..n]
    {
      n := n + 1;
    }
  }

  ghost predicate OccursAt<T>(text: seq<T>, pattern: seq<T>, i: int) {
    0 <= i && i + |pattern| <= |text| && text[i..i + |pattern|] == pattern
  }

  /** std::search: the first occurrence of pattern in text, or the end of text. */
  method Search<T(==)>(text: seq<T>, pattern: seq<T>) returns (i: nat)
    ensures i <= |text|
    ensures i < |text| ==> OccursAt(text, pattern, i)
    ensures forall j :: 0 <= j < i && j < |text| ==> !OccursAt(text, pattern, j)
  {
    i := 0;
    while i + |pattern| <= |text|
      invariant i <= |text| + 1
      invariant forall j :: 0 <= j < i ==> !OccursAt(text, pattern, j)
    {
      if text[i..i + |pattern|] == pattern {
        return;
      }
      i := i + 1;
    }
    i := |text|;
  }

  /** (x, y) lies on a cheapest path, c1 edits from the start and c2 from the end. */
  ghost predicate Midpoint<T>(a: seq<T>, b: seq<T>, c1: int, c2: int, x: int, y: int) {
    && 0 <= x <= |a| && 0 <= y <= |b|
    && Fwd(a, b, x, y) == c1 && Bwd(a, b, x, y) == c2 && Distance(a, b) == c1 + c2
  }

  /** What a visited diagonal k at column x tells: a midpoint if overlap, else no meeting here. */
  ghost predicate Judged<T>(a: seq<T>, b: seq<T>, c1: int, c2: int, k: int, x: int, overlap: bool) {
    && (overlap ==> Midpoint(a, b, c1, c2, x, x - k))
    && (!overlap ==> !Meeting(a, b, c1, c2, k))
  }

  /** The verdict of the front pass on diagonal k, when the total number of tokens is odd. */
  lemma FrontVerdict<T>(
      a: seq<T>, b: seq<T>, ra: seq<T>, rb: seq<T>, w0: seq<int>, w: seq<int>, offset: int,
      d: int, lo: int, k: int, x1: int, k2Start: int, k2End: int)
    requires IsMirror(a, ra) && IsMirror(b, rb) && 0 < |a| && 0 < |b|
    requires (|a| - |b|) % 2 != 0 && 0 <= d < offset && 2 * d - 1 <= Distance(a, b) && SameParity(k, d)
    requires RoundReady(ra, rb, w0, offset, 1, d, k2Start, k2End)
    requires RoundPartial(a, b, w0, w, offset, 0, d, lo, k + 2)
    requires Reached(a, b, d, k, x1) && Recorded(a, b, d, k, x1)
    ensures Judged(a, b, d, d - 1, k, x1, OnGrid(a, b, k, x1) && Overlap(w, offset, 1, |a|, |a| - |b| - k, x1))
  {
    ReadyFrame(ra, rb, w0, w, offset, 1, d, k2Start, k2End);
    Verdict(a, b, ra, rb, w, offset, 1, d, d - 1, k, x1);
    if d == 0 && OnGrid(a, b, k, x1) && Overlap(w, offset, 1, |a|, |a| - |b| - k, x1) {
      ReachedBoundsDiagonal(a, b, d, k, x1);
    }
  }

  /** The verdict of the reverse pass on diagonal k2, when the total number of tokens is even. */
  lemma ReverseVerdict<T>(
      a: seq<T>, b: seq<T>, ra: seq<T>, rb: seq<T>, w0: seq<int>, w: seq<int>, offset: int,
      d: int, lo: int, k2: int, x2: int)
    requires IsMirror(a, ra) && IsMirror(b, rb)
    requires (|a| - |b|) % 2 == 0 && 0 <= d < offset && 2 * d <= Distance(a, b) == Distance(ra, rb) && SameParity(k2, d)
    requires RoundDone(a, b, w0, offset, 0, d)
    requires RoundPartial(ra, rb, w0, w, offset, 1, d, lo, k2 + 2)
    requires Reached(ra, rb, d, k2, x2) && Recorded(ra, rb, d, k2, x2)
    ensures var k1 := |a| - |b| - k2;
            var overlap := OnGrid(ra, rb, k2, x2) && Overlap(w, offset, 0, |a|, k1, x2);
            && (overlap ==> Midpoint(a, b, d, d, Entry(w, offset, 0, k1), Entry(w, offset, 0, k1) - k1))
            && (!overlap ==> !Meeting(ra, rb, d, d, k2))
  {
    hide RoundDone, RoundPartial, Recorded, RoundReady, Fwd, Bwd, IsMirror, Meeting;
    var k1 := |a| - |b| - k2;
    OtherPassKept(ra, rb, a, b, w0, w, offset, 1, d, lo, k2 + 2, d, 0, 0);
    MirrorSymmetric(a, ra);
    MirrorSymmetric(b, rb);
    Verdict(ra, rb, a, b, w, offset, 0, d, d, k2, x2);
    if OnGrid(ra, rb, k2, x2) && Overlap(w, offset, 0, |a|, k1, x2) {
      OverlapIsCheapest(a, b, ra, rb, d, d, k1, Entry(w, offset, 0, k1), x2);
    }
  }

  lemma ReverseExcludes<T>(a: seq<T>, b: seq<T>, d: int, kStart: int, kEnd: int, k: int)
    requires 0 <= d && 2 * d <= Distance(a, b) && (|a| - |b|) % 2 == 0
    requires TopTrim(a, b, d, kEnd) && BottomTrim(a, b, d, kStart) && d - kEnd < k
    requires NoMeetings(a, b, d, d, kStart - d, k)
    ensures 2 * d + 2 <= Distance(a, b)
  {
    RoundExcludes(a, b, d, d, kStart, kEnd, k);
  }

  /** What the search promises of its answer: a vertex of a cheapest path, inside the
      rectangle and at neither of its two corners, or (-1, -1) when nothing is common. */
  ghost predicate SplitsCheapest<T>(a: seq<T>, b: seq<T>, x: int, y: int) {
    || (x == -1 && y == -1 && Distance(a, b) == |a| + |b|)
    || (&& 0 <= x <= |a| && 0 <= y <= |b|
        && !(x == 0 && y == 0) && !(x == |a| && y == |b|)
        && Fwd(a, b, x, y) + Bwd(a, b, x, y) == Distance(a, b))
  }

  lemma NothingCommonSplits<T>(a: seq<T>, b: seq<T>, maxD: int)
    requires maxD == (|a| + |b| + 1) / 2
    requires (|a| - |b|) % 2 != 0 ==> 2 * maxD - 1 <= Distance(a, b)
    requires (|a| - |b|) % 2 == 0 ==> 2 * maxD <= Distance(a, b)
    ensures SplitsCheapest(a, b, -1, -1)
  {
    CostAtMostAll(a, b, |a|, |b|);
  }

  lemma MidpointSplits<T>(a: seq<T>, b: seq<T>, c1: int, c2: int, x: int, y: int)
    requires Midpoint(a, b, c1, c2, x, y) && 0 < c1 && 0 < c2
    ensures SplitsCheapest(a, b, x, y)
  {
  }

  lemma FrontExcludes<T>(a: seq<T>, b: seq<T>, d: int, kStart: int, kEnd: int, k: int)
    requires 0 <= d <= Distance(a, b) && 2 * d - 1 <= Distance(a, b) && (|a| - |b|) % 2 != 0
    requires TopTrim(a, b, d, kEnd) && BottomTrim(a, b, d, kStart) && d - kEnd < k
    requires NoMeetings(a, b, d, d - 1, kStart - d, k)
    ensures 2 * d + 1 <= Distance(a, b)
  {
    RoundExcludes(a, b, d, d - 1, kStart, kEnd, k);
  }

  /** The overlap test against the other pass, whose slots are the odd ones for p == 1. */
  method TestOverlap(w: array<int>, vOffset: int, p: int, length1: int, k: int, x: int) returns (overlap: bool)
    requires w.Length == 4 * vOffset + 4 && 0 <= p <= 1
    ensures overlap <==> Overlap(w[..], vOffset, p, length1, k, x)
  {
    var vSize := 2 * vOffset;
    var offset := vOffset + k;
    overlap := 0 <= offset < vSize && w[2 * offset + p] != -1 && x >= length1 - w[2 * offset + p];
  }

  class Diff<T(==)> {
    const tokens1: seq<T>
    const tokens2: seq<T>

    constructor (tokens1: seq<T>, tokens2: seq<T>)
      ensures this.tokens1 == tokens1 && this.tokens2 == tokens2
    {
      this.tokens1, this.tokens2 := tokens1, tokens2;
    }

    /** The runs under comparison and their mirror images. */
    ghost predicate Runs(b1: int, e1: int, b2: int, e2: int, a: seq<T>, b: seq<T>, ra: seq<T>, rb: seq<T>) {
      && 0 <= b1 < e1 <= |tokens1| && 0 <= b2 < e2 <= |tokens2|
      && a == tokens1[b1..e1] && b == tokens2[b2..e2]
      && IsMirror(a, ra) && IsMirror(b, rb)
    }

    /** Follows the common tokens down a diagonal. */
    method SlideFront(
        b1: int, e1: int, b2: int, e2: int, k1: int, x0: int,
        ghost a: seq<T>, ghost b: seq<T>, ghost ra: seq<T>, ghost rb: seq<T>)
      returns (x1: int, y1: int)
      requires Runs(b1, e1, b2, e2, a, b, ra, rb)
      requires 0 <= x0 && k1 <= x0
      ensures Snake(a, b, k1, x0, x1) && y1 == x1 - k1
    {
      x1, y1 := x0, x0 - k1;
      while x1 < e1 - b1 && y1 < e2 - b2 && tokens1[b1 + x1] == tokens2[b2 + y1]
        invariant x0 <= x1 && y1 == x1 - k1
        invariant forall t :: x0 <= t < x1 ==> Common(a, b, k1, t)
      {
        x1 := x1 + 1;
        y1 := y1 + 1;
      }
    }

    /** Visits one diagonal of the front pass. */
    method StepFront(
        b1: int, e1: int, b2: int, e2: int, w: array<int>, vOffset: int, d: int, k1: int,
        ghost a: seq<T>, ghost b: seq<T>, ghost ra: seq<T>, ghost rb: seq<T>,
        ghost w0: seq<int>, ghost k1Start0: int, ghost k1End0: int)
      returns (x1: int, y1: int)
      requires Runs(b1, e1, b2, e2, a, b, ra, rb)
      requires w.Length == 4 * vOffset + 4 && 0 <= d < vOffset && d <= Distance(a, b)
      requires 0 <= k1Start0 && 0 <= k1End0
      requires SameParity(k1, d) && k1Start0 - d <= k1 <= d - k1End0
      requires RoundReady(a, b, w0, vOffset, 0, d, k1Start0, k1End0)
      requires RoundPartial(a, b, w0, w[..], vOffset, 0, d, k1Start0 - d, k1)
      modifies w
      ensures RoundPartial(a, b, w0, w[..], vOffset, 0, d, k1Start0 - d, k1 + 2)
      ensures y1 == x1 - k1
      ensures Reached(a, b, d, k1, x1) && Recorded(a, b, d, k1, x1)
    {
      var k1Offset := vOffset + k1;
      ghost var before := w[..];
      ghost var x0 := StartFromSlots(a, b, w0, before, vOffset, 0, d, k1Start0, k1End0, k1);
      var below, above := w[2 * k1Offset - 2], w[2 * k1Offset + 2];
      if k1 == -d || (k1 != d && below < above) {
        x1 := above;
      } else {
        x1 := below + 1;
      }
      x1, y1 := SlideFront(b1, e1, b2, e2, k1, x1, a, b, ra, rb);
      w[2 * k1Offset] := x1;
      PartialStep(a, b, w0, before, w[..], vOffset, 0, d, k1Start0 - d, k1, below, above, x0, x1);
    }

    /** One round of the front pass. */
    method WalkFront(
        b1: int, e1: int, b2: int, e2: int, w: array<int>, vOffset: int, d: int, k1Start0: int, k1End0: int,
        ghost a: seq<T>, ghost b: seq<T>, ghost ra: seq<T>, ghost rb: seq<T>, ghost k2Start: int, ghost k2End: int)
      returns (found: bool, x1: int, y1: int, k1Start: int, k1End: int)
      requires Runs(b1, e1, b2, e2, a, b, ra, rb)
      requires w.Length == 4 * vOffset + 4 && 0 <= d < vOffset && d <= Distance(a, b)
      requires (|a| - |b|) % 2 != 0 ==> 2 * d - 1 <= Distance(a, b)
      requires RoundReady(a, b, w[..], vOffset, 0, d, k1Start0, k1End0)
      requires RoundReady(ra, rb, w[..], vOffset, 1, d, k2Start, k2End)
      modifies w
      ensures !found ==> RoundReady(ra, rb, w[..], vOffset, 1, d, k2Start, k2End)
      ensures !found ==> RoundDone(a, b, w[..], vOffset, 0, d)
      ensures !found ==> RoundReady(a, b, w[..], vOffset, 0, d + 1, k1Start, k1End)
      ensures !found && (|a| - |b|) % 2 != 0 ==> 2 * d + 1 <= Distance(a, b)
      ensures found ==> Midpoint(a, b, d, d - 1, x1, y1)
    {
      hide RoundPartial, RoundDone, NoMeetings, Meeting, Overlap, NeighbourSet, RightEdge, BottomEdge, Fwd, Bwd;
      var length1, length2 := e1 - b1, e2 - b2;
      var delta := length1 - length2;
      var front := delta % 2 != 0;
      found, k1Start, k1End := false, k1Start0, k1End0;
      x1, y1 := 0, 0;
      ghost var w0 := w[..];
      ghost var clean := SomeCleanDiagonal(a, b, d);
      TrimmedNotClean(a, b, d, k1Start0, k1End0, clean);
      RoundBegins(a, b, w0, vOffset, 0, d, d - 1, k1Start0 - d);
      var k1 := -d + k1Start;
      while k1 <= d - k1End
        invariant SameParity(k1, d) && k1Start0 - d <= k1 && k1Start - d <= k1
        invariant k1 == k1Start0 - d ==> k1End == k1End0
        invariant k1Start0 <= k1Start && k1End0 <= k1End && TopTrim(a, b, d, k1End) && BottomTrim(a, b, d, k1Start)
        invariant d == 0 ==> k1Start == 0 && k1End == 0
        invariant d == 1 && k1 <= 1 ==> k1End == 0
        invariant RoundPartial(a, b, w0, w[..], vOffset, 0, d, k1Start0 - d, k1)
        invariant front ==> NoMeetings(a, b, d, d - 1, k1Start0 - d, k1)
        decreases d - k1
      {
        x1, y1 := StepFront(b1, e1, b2, e2, w, vOffset, d, k1, a, b, ra, rb, w0, k1Start0, k1End0);
        TrimStep(a, b, d, k1, x1, k1Start, k1End);
        if front {
          FrontVerdict(a, b, ra, rb, w0, w[..], vOffset, d, k1Start0 - d, k1, x1, k2Start, k2End);
        }
        if x1 > length1 {
          k1End := k1End + 2;
        } else if y1 > length2 {
          k1Start := k1Start + 2;
        } else if front {
          var overlap := TestOverlap(w, vOffset, 1, length1, delta - k1, x1);
          if overlap {
            return true, x1, y1, k1Start, k1End;
          }
        }
        if front {
          NoMeetingsStep(a, b, d, d - 1, k1Start0 - d, k1);
        }
        NextParity(k1, d);
        k1 := k1 + 2;
      }
      RoundEnds(a, b, w0, w[..], vOffset, 0, d, k1Start0, k1End0, k1Start, k1End, k1);
      OtherPassKept(a, b, ra, rb, w0, w[..], vOffset, 0, d, k1Start0 - d, k1, d, k2Start, k2End);
      if front {
        FrontExcludes(a, b, d, k1Start0, k1End, k1);
      }
    }

    /** Follows the common tokens up a diagonal, from the ends of the runs. */
    method SlideReverse(
        b1: int, e1: int, b2: int, e2: int, k2: int, x0: int,
        ghost a: seq<T>, ghost b: seq<T>, ghost ra: seq<T>, ghost rb: seq<T>)
      returns (x2: int, y2: int)
      requires Runs(b1, e1, b2, e2, a, b, ra, rb)
      requires 0 <= x0 && k2 <= x0
      ensures Snake(ra, rb, k2, x0, x2) && y2 == x2 - k2
    {
      var length1, length2 := e1 - b1, e2 - b2;
      x2, y2 := x0, x0 - k2;
      while x2 < length1 && y2 < length2 && tokens1[b1 + length1 - x2 - 1] == tokens2[b2 + length2 - y2 - 1]
        invariant x0 <= x2 && y2 == x2 - k2
        invariant forall t :: x0 <= t < x2 ==> Common(ra, rb, k2, t)
      {
        x2 := x2 + 1;
        y2 := y2 + 1;
      }
    }

    /** Visits one diagonal of the reverse pass. */
    method StepReverse(
        b1: int, e1: int, b2: int, e2: int, w: array<int>, vOffset: int, d: int, k2: int,
        ghost a: seq<T>, ghost b: seq<T>, ghost ra: seq<T>, ghost rb: seq<T>,
        ghost w0: seq<int>, ghost k2Start0: int, ghost k2End0: int)
      returns (x2: int, y2: int)
      requires Runs(b1, e1, b2, e2, a, b, ra, rb)
      requires w.Length == 4 * vOffset + 4 && 0 <= d < vOffset && d <= Distance(ra, rb)
      requires 0 <= k2Start0 && 0 <= k2End0
      requires SameParity(k2, d) && k2Start0 - d <= k2 <= d - k2End0
      requires RoundReady(ra, rb, w0, vOffset, 1, d, k2Start0, k2End0)
      requires RoundPartial(ra, rb, w0, w[..], vOffset, 1, d, k2Start0 - d, k2)
      modifies w
      ensures RoundPartial(ra, rb, w0, w[..], vOffset, 1, d, k2Start0 - d, k2 + 2)
      ensures y2 == x2 - k2
      ensures Reached(ra, rb, d, k2, x2) && Recorded(ra, rb, d, k2, x2)
    {
      hide RoundReady, RoundPartial, Neighbours, Recorded, RightEdge, BottomEdge, Fwd, Bwd;
      var k2Offset := vOffset + k2;
      ghost var before := w[..];
      ghost var x0 := StartFromSlots(ra, rb, w0, before, vOffset, 1, d, k2Start0, k2End0, k2);
      var below, above := w[2 * k2Offset - 1], w[2 * k2Offset + 3];
      if k2 == -d || (k2 != d && below < above) {
        x2 := above;
      } else {
        x2 := below + 1;
      }
      x2, y2 := SlideReverse(b1, e1, b2, e2, k2, x2, a, b, ra, rb);
      w[2 * k2Offset + 1] := x2;
      PartialStep(ra, rb, w0, before, w[..], vOffset, 1, d, k2Start0 - d, k2, below, above, x0, x2);
    }

    /** One round of the reverse pass. */
    method WalkReverse(
        b1: int, e1: int, b2: int, e2: int, w: array<int>, vOffset: int, d: int, k2Start0: int, k2End0: int,
        ghost a: seq<T>, ghost b: seq<T>, ghost ra: seq<T>, ghost rb: seq<T>, ghost k1Start: int, ghost k1End: int)
      returns (found: bool, x1: int, y1: int, k2Start: int, k2End: int)
      requires Runs(b1, e1, b2, e2, a, b, ra, rb)
      requires w.Length == 4 * vOffset + 4 && 0 <= d < vOffset && d <= Distance(a, b) == Distance(ra, rb)
      requires (|a| - |b|) % 2 == 0 ==> 2 * d <= Distance(a, b)
      requires RoundReady(ra, rb, w[..], vOffset, 1, d, k2Start0, k2End0)
      requires RoundDone(a, b, w[..], vOffset, 0, d)
      requires RoundReady(a, b, w[..], vOffset, 0, d + 1, k1Start, k1End)
      modifies w
      ensures !found ==> RoundReady(a, b, w[..], vOffset, 0, d + 1, k1Start, k1End)
      ensures !found ==> RoundReady(ra, rb, w[..], vOffset, 1, d + 1, k2Start, k2End)
      ensures !found && (|a| - |b|) % 2 == 0 ==> 2 * d + 2 <= Distance(a, b)
      ensures found ==> Midpoint(a, b, d, d, x1, y1)
    {
      hide RoundPartial, RoundDone, NoMeetings, Meeting, Midpoint, NeighbourSet, RightEdge, BottomEdge, Fwd, Bwd;
      var length1, length2 := e1 - b1, e2 - b2;
      var delta := length1 - length2;
      var front := delta % 2 != 0;
      found, k2Start, k2End := false, k2Start0, k2End0;
      x1, y1 := 0, 0;
      ghost var w0 := w[..];
      ghost var clean := SomeCleanDiagonal(ra, rb, d);
      TrimmedNotClean(ra, rb, d, k2Start0, k2End0, clean);
      RoundBegins(ra, rb, w0, vOffset, 1, d, d, k2Start0 - d);
      var k2 := -d + k2Start;
      while k2 <= d - k2End
        invariant SameParity(k2, d) && k2Start0 - d <= k2 && k2Start - d <= k2
        invariant k2 == k2Start0 - d ==> k2End == k2End0
        invariant k2Start0 <= k2Start && k2End0 <= k2End
        invariant TopTrim(ra, rb, d, k2End) && BottomTrim(ra, rb, d, k2Start)
        invariant d == 0 ==> k2Start == 0 && k2End == 0
        invariant d == 1 && k2 <= 1 ==> k2End == 0
        invariant RoundPartial(ra, rb, w0, w[..], vOffset, 1, d, k2Start0 - d, k2)
        invariant !front ==> NoMeetings(ra, rb, d, d, k2Start0 - d, k2)
        decreases d - k2
      {
        var x2, y2 := StepReverse(b1, e1, b2, e2, w, vOffset, d, k2, a, b, ra, rb, w0, k2Start0, k2End0);
        TrimStep(ra, rb, d, k2, x2, k2Start, k2End);
        if !front {
          ReverseVerdict(a, b, ra, rb, w0, w[..], vOffset, d, k2Start0 - d, k2, x2);
        }
        if x2 > length1 {
          k2End := k2End + 2;
        } else if y2 > length2 {
          k2Start := k2Start + 2;
        } else if !front {
          var overlap := TestOverlap(w, vOffset, 0, length1, delta - k2, x2);
          if overlap {
            var k1Offset := vOffset + delta - k2;
            x1 := w[2 * k1Offset];
            y1 := vOffset + x1 - k1Offset;
            return true, x1, y1, k2Start, k2End;
          }
        }
        if !front {
          NoMeetingsStep(ra, rb, d, d, k2Start0 - d, k2);
        }
        NextParity(k2, d);
        k2 := k2 + 2;
      }
      RoundEnds(ra, rb, w0, w[..], vOffset, 1, d, k2Start0, k2End0, k2Start, k2End, k2);
      OtherPassKept(ra, rb, a, b, w0, w[..], vOffset, 1, d, k2Start0 - d, k2, d + 1, k1Start, k1End);
      if !front {
        ReverseExcludes(ra, rb, d, k2Start0, k2End, k2);
      }
    }

    /** Find the middle snake of a diff, returning the split point, or (-1, -1). */
    method GetBisectSplitPoints(b1: int, e1: int, b2: int, e2: int) returns (x1: int, y1: int)
      requires 0 <= b1 < e1 <= |tokens1| && 0 <= b2 < e2 <= |tokens2|
      requires tokens1[b1] != tokens2[b2] && tokens1[e1 - 1] != tokens2[e2 - 1]
      ensures SplitsCheapest(tokens1[b1..e1], tokens2[b2..e2], x1, y1)
    {
      hide RoundReady, RoundDone, SplitsCheapest, Fwd, Bwd;
      var length1, length2 := e1 - b1, e2 - b2;
      ghost var a, b := tokens1[b1..e1], tokens2[b2..e2];
      ghost var ra, rb := Seqs.Reversed(a), Seqs.Reversed(b);
      DistanceFromEnd(a, b, ra, rb);
      AtLeastTwoEdits(a, b);
      CostParity(a, b, |a|, |b|);
      CostAtMostAll(a, b, |a|, |b|);
      var maxD := (length1 + length2 + 1) / 2;
      var w := new int[4 * maxD + 4](i => -1);
      w[2 * maxD + 2] := 0;
      w[2 * maxD + 3] := 0;
      FirstRoundReady(a, b, w[..], maxD, 0);
      FirstRoundReady(ra, rb, w[..], maxD, 1);
      var k1Start, k1End, k2Start, k2End := 0, 0, 0, 0;
      for d := 0 to maxD
        invariant (|a| - |b|) % 2 != 0 ==> 2 * d - 1 <= Distance(a, b)
        invariant (|a| - |b|) % 2 == 0 ==> 2 * d <= Distance(a, b)
        invariant RoundReady(a, b, w[..], maxD, 0, d, k1Start, k1End)
        invariant RoundReady(ra, rb, w[..], maxD, 1, d, k2Start, k2End)
      {
        var found;
        found, x1, y1, k1Start, k1End :=
          WalkFront(b1, e1, b2, e2, w, maxD, d, k1Start, k1End, a, b, ra, rb, k2Start, k2End);
        if found {
          MidpointSplits(a, b, d, d - 1, x1, y1);
          return;
        }
        found, x1, y1, k2Start, k2End :=
          WalkReverse(b1, e1, b2, e2, w, maxD, d, k2Start, k2End, a, b, ra, rb, k1Start, k1End);
        if found {
          MidpointSplits(a, b, d, d, x1, y1);
          return;
        }
      }
      x1, y1 := -1, -1;
      NothingCommonSplits(a, b, maxD);
    }

    /** Appends the edits that turn tokens1[b1..e1] into tokens2[b2..e2]. */
    method Generate(b1: int, e1: int, b2: int, e2: int, edits: EditList) returns (ghost block: seq<Edit>)
      requires 0 <= b1 <= e1 <= |tokens1| && 0 <= b2 <= e2 <= |tokens2|
      requires b1 < e1 && b2 < e2 && tokens1[b1] == tokens2[b2] ==> EndsAt(edits.items, b1, b2)
      modifies edits
      ensures Solves(tokens1, tokens2, block, b1, e1, b2, e2)
      ensures edits.items == Fuse(old(edits.items), block)
      decreases e1 - b1 + e2 - b2, 2
    {
      hide Solves, Fuse, Path, Cost, Fwd, Bwd;
      ghost var items0 := edits.items;
      if e1 - b1 == e2 - b2 && tokens1[b1..e1] == tokens2[b2..e2] {
        EqualSolves(tokens1, tokens2, b1, e1, b2, e2);
        FuseNothing(items0);
        if b1 != e1 {
          edits.AppendEdit(EQUALS, b1, e1);
          return [Edit(EQUALS, b1, e1)];
        }
        return [];
      }
      var prefixSize, suffixSize := CommonEnds(b1, e1, b2, e2);
      var editsSize := |edits.items|;
      ghost var t := Compute(b1 + prefixSize, e1 - suffixSize, b2 + prefixSize, e2 - suffixSize, edits);
      block := t;
      if prefixSize != 0 {
        StartsWithAChange(tokens1, tokens2, t, b1 + prefixSize, e1 - suffixSize, b2 + prefixSize, e2 - suffixSize);
        PrefixInserted(items0, t, b1, b2, prefixSize);
        PrefixSolves(tokens1, tokens2, t, b1, e1 - suffixSize, b2, e2 - suffixSize, prefixSize);
        edits.InsertEditAt(editsSize, EQUALS, b1, b1 + prefixSize);
        block := [Edit(EQUALS, b1, b1 + prefixSize)] + t;
      }
      if suffixSize != 0 {
        edits.AppendEdit(EQUALS, e1 - suffixSize, e1);
        ghost var k := Edit(EQUALS, e1 - suffixSize, e1);
        FuseAssociative(items0, block, [k]);
        SuffixSolves(tokens1, tokens2, block, b1, e1 - suffixSize, b2, e2 - suffixSize, suffixSize);
        block := Fuse(block, [k]);
      }
    }

    /** The longest common prefix, and the longest common suffix of what is left. */
    method CommonEnds(b1: int, e1: int, b2: int, e2: int) returns (prefixSize: nat, suffixSize: nat)
      requires 0 <= b1 <= e1 <= |tokens1| && 0 <= b2 <= e2 <= |tokens2|
      requires tokens1[b1..e1] != tokens2[b2..e2]
      ensures prefixSize + suffixSize <= e1 - b1 && prefixSize + suffixSize <= e2 - b2
      ensures tokens1[b1..b1 + prefixSize] == tokens2[b2..b2 + prefixSize]
      ensures tokens1[e1 - suffixSize..e1] == tokens2[e2 - suffixSize..e2]
      ensures MiddlePart(tokens1, tokens2, b1 + prefixSize, e1 - suffixSize, b2 + prefixSize, e2 - suffixSize)
      ensures 0 < prefixSize ==> tokens1[b1] == tokens2[b2]
    {
      prefixSize := CommonAffix(tokens1[b1..e1], tokens2[b2..e2]);
      SliceOfSlice(tokens1, b1, e1, 0, prefixSize);
      SliceOfSlice(tokens2, b2, e2, 0, prefixSize);
      suffixSize := CommonSuffix(b1 + prefixSize, e1, b2 + prefixSize, e2);
      CutTwice(tokens1, b1, b1 + prefixSize, e1);
      CutTwice(tokens2, b2, b2 + prefixSize, e2);
    }

    method CommonSuffix(b1: int, e1: int, b2: int, e2: int) returns (n: nat)
      requires 0 <= b1 <= e1 <= |tokens1| && 0 <= b2 <= e2 <= |tokens2|
      ensures n <= e1 - b1 && n <= e2 - b2
      ensures tokens1[e1 - n..e1] == tokens2[e2 - n..e2]
      ensures n < e1 - b1 && n < e2 - b2 ==> tokens1[e1 - n - 1] != tokens2[e2 - n - 1]
    {
      hide Seqs.Reversed;
      var s, t := tokens1[b1..e1], tokens2[b2..e2];
      var rs, rt := Seqs.Reversed(s), Seqs.Reversed(t);
      ReversedIsMirror(s);
      ReversedIsMirror(t);
      hide IsMirror;
      n := CommonAffix(rs, rt);
      SuffixMatches(s, t, rs, rt, n);
      SliceOfSlice(tokens1, b1, e1, |s| - n, |s|);
      SliceOfSlice(tokens2, b2, e2, |t| - n, |t|);
    }

    /** The second run stands inside the first: what is around it goes. */
    method KeepInFirst(b1: int, e1: int, b2: int, e2: int, offset: int, edits: EditList) returns (ghost block: seq<Edit>)
      requires MiddlePart(tokens1, tokens2, b1, e1, b2, e2) && b2 < e2 && e2 - b2 < e1 - b1
      requires OccursAt(tokens1[b1..e1], tokens2[b2..e2], offset - b1)
      modifies edits
      ensures Solves(tokens1, tokens2, block, b1, e1, b2, e2)
      ensures edits.items == Fuse(old(edits.items), block)
    {
      hide Solves, Fuse, OccursAt;
      ghost var items0 := edits.items;
      var offsetEnd := offset + (e2 - b2);
      edits.AppendEdit(DELETE, b1, offset);
      edits.AppendEdit(EQUALS, offset, offsetEnd);
      edits.AppendEdit(DELETE, offsetEnd, e1);
      FuseThree(items0, Edit(DELETE, b1, offset), Edit(EQUALS, offset, offsetEnd), Edit(DELETE, offsetEnd, e1));
      FoundInFirst(tokens1, tokens2, b1, e1, b2, e2, offset);
      return [Edit(DELETE, b1, offset), Edit(EQUALS, offset, offsetEnd), Edit(DELETE, offsetEnd, e1)];
    }

    /** The first run stands inside the second: what is around it comes. */
    method KeepInSecond(b1: int, e1: int, b2: int, e2: int, offset: int, edits: EditList) returns (ghost block: seq<Edit>)
      requires MiddlePart(tokens1, tokens2, b1, e1, b2, e2) && b1 < e1 && e1 - b1 < e2 - b2
      requires OccursAt(tokens2[b2..e2], tokens1[b1..e1], offset - b2)
      modifies edits
      ensures Solves(tokens1, tokens2, block, b1, e1, b2, e2)
      ensures edits.items == Fuse(old(edits.items), block)
    {
      hide Solves, Fuse, OccursAt;
      ghost var items0 := edits.items;
      var offsetEnd := offset + (e1 - b1);
      edits.AppendEdit(INSERT, b2, offset);
      edits.AppendEdit(EQUALS, b1, e1);
      edits.AppendEdit(INSERT, offsetEnd, e2);
      FuseThree(items0, Edit(INSERT, b2, offset), Edit(EQUALS, b1, e1), Edit(INSERT, offsetEnd, e2));
      FoundInSecond(tokens1, tokens2, b1, e1, b2, e2, offset);
      return [Edit(INSERT, b2, offset), Edit(EQUALS, b1, e1), Edit(INSERT, offsetEnd, e2)];
    }

    /** Computes the diff of runs that share neither first nor last token. */
    method Compute(b1: int, e1: int, b2: int, e2: int, edits: EditList) returns (ghost block: seq<Edit>)
      requires MiddlePart(tokens1, tokens2, b1, e1, b2, e2)
      modifies edits
      ensures Solves(tokens1, tokens2, block, b1, e1, b2, e2)
      ensures edits.items == Fuse(old(edits.items), block)
      decreases e1 - b1 + e2 - b2, 1
    {
      hide Solves, Fuse, Path, Cost, Fwd, Bwd, Distance, Step, OccursAt;
      var length1, length2 := e1 - b1, e2 - b2;
      if length1 == 0 && length2 != 0 {
        edits.AppendEdit(INSERT, b2, e2);
        OneSidedSolves(tokens1, tokens2, Edit(INSERT, b2, e2), b1, e1, b2, e2);
        return [Edit(INSERT, b2, e2)];
      }
      if length2 == 0 && length1 != 0 {
        edits.AppendEdit(DELETE, b1, e1);
        OneSidedSolves(tokens1, tokens2, Edit(DELETE, b1, e1), b1, e1, b2, e2);
        return [Edit(DELETE, b1, e1)];
      }
      if length1 > length2 {
        var i := Search(tokens1[b1..e1], tokens2[b2..e2]);
        var offset := b1 + i;
        if offset != e1 {
          block := KeepInFirst(b1, e1, b2, e2, offset, edits);
          return;
        }
        if length2 == 1 {
          SingleTokenApart(tokens1[b1..e1], tokens2[b2..e2]);
          block := Replace(b1, e1, b2, e2, edits);
          return;
        }
      } else if length2 > length1 {
        var i := Search(tokens2[b2..e2], tokens1[b1..e1]);
        var offset := b2 + i;
        if offset != e2 {
          block := KeepInSecond(b1, e1, b2, e2, offset, edits);
          return;
        }
        if length1 == 1 {
          SingleTokenApart(tokens2[b2..e2], tokens1[b1..e1]);
          block := Replace(b1, e1, b2, e2, edits);
          return;
        }
      }
      block := Bisect(b1, e1, b2, e2, edits);
    }

    /** Deletes the old run and inserts the new one. */
    method Replace(b1: int, e1: int, b2: int, e2: int, edits: EditList) returns (ghost block: seq<Edit>)
      requires 0 <= b1 < e1 <= |tokens1| && 0 <= b2 < e2 <= |tokens2|
      requires Distance(tokens1[b1..e1], tokens2[b2..e2]) == (e1 - b1) + (e2 - b2)
      modifies edits
      ensures Solves(tokens1, tokens2, block, b1, e1, b2, e2)
      ensures edits.items == Fuse(old(edits.items), block)
    {
      hide Solves, Path, Cost, Fwd;
      ghost var items0 := edits.items;
      edits.AppendEdit(DELETE, b1, e1);
      edits.AppendEdit(INSERT, b2, e2);
      block := [Edit(DELETE, b1, e1), Edit(INSERT, b2, e2)];
      FuseAssociative(items0, [Edit(DELETE, b1, e1)], [Edit(INSERT, b2, e2)]);
      ReplaceSolves(tokens1, tokens2, b1, e1, b2, e2);
    }

    /** Splits at a middle snake and diffs both parts. */
    method Bisect(b1: int, e1: int, b2: int, e2: int, edits: EditList) returns (ghost block: seq<Edit>)
      requires 0 <= b1 < e1 <= |tokens1| && 0 <= b2 < e2 <= |tokens2|
      requires tokens1[b1] != tokens2[b2] && tokens1[e1 - 1] != tokens2[e2 - 1]
      modifies edits
      ensures Solves(tokens1, tokens2, block, b1, e1, b2, e2)
      ensures edits.items == Fuse(old(edits.items), block)
      decreases e1 - b1 + e2 - b2, 0
    {
      hide Solves, Path, Cost, Fuse, Fwd, Bwd;
      ghost var items0 := edits.items;
      var x1, x2 := GetBisectSplitPoints(b1, e1, b2, e2);
      if x1 >= 0 {
        ghost var s := Generate(b1, b1 + x1, b2, b2 + x2, edits);
        BlockEndsAt(tokens1, tokens2, items0, s, b1, b1 + x1, b2, b2 + x2);
        ghost var t := Generate(b1 + x1, e1, b2 + x2, e2, edits);
        FuseAssociative(items0, s, t);
        SplitSolves(tokens1, tokens2, s, t, b1, e1, b2, e2, x1, x2);
        block := Fuse(s, t);
      } else {
        block := Replace(b1, e1, b2, e2, edits);
      }
    }
  }

  /** The edits that turn tokens1 into tokens2, with the promises of the header: they
      concatenate to both inputs, every edit is non-empty, no two neighbours share an
      operation, and no script does it with fewer insertions and deletions. */
  method GetTokenDiffs<T(==)>(tokens1: seq<T>, tokens2: seq<T>) returns (edits: seq<Edit>)
    ensures Transforms(tokens1, tokens2, edits)
    ensures Path(tokens1, tokens2, edits, 0, 0, |tokens1|, |tokens2|)
    ensures NoNeighboursAlike(edits)
    ensures forall e :: e in edits ==> e.start < e.end
    ensures Cost(edits) == Distance(tokens1, tokens2)
    ensures forall other :: Transforms(tokens1, tokens2, other) ==> Cost(edits) <= Cost(other)
  {
    var tokenEdits := new EditList();
    var diff := new Diff(tokens1, tokens2);
    ghost var block := diff.Generate(0, |tokens1|, 0, |tokens2|, tokenEdits);
    edits := tokenEdits.items;
    assert edits == block;
    assert tokens1[0..|tokens1|] == tokens1 && tokens2[0..|tokens2|] == tokens2;
    PathSpells(tokens1, tokens2, edits, 0, 0, |tokens1|, |tokens2|);
    PathEdits(tokens1, tokens2, edits, 0, 0, |tokens1|, |tokens2|);
    forall other | Transforms(tokens1, tokens2, other)
      ensures Cost(edits) <= Cost(other)
    {
      ScriptCostsDistance(tokens1, tokens2, other);
    }
  }
}

/** The piecewise minimum of layout functions: LayoutFunctionFactory::Choice. */
module LayoutChoice {
  import opened LayoutFunction

  // ----- the simple definition

  /** At column x, s is preferred over t when it costs less, or the same with a lower gradient. */
  predicate Better(s: Segment, t: Segment, x: int) {
    s.CostAt(x) < t.CostAt(x) || (s.CostAt(x) == t.CostAt(x) && s.gradient < t.gradient)
  }

  /** m is the most preferred of the segments at column x, the earliest such one. */
  predicate IsBest(segs: seq<Segment>, x: int, m: int) {
    && 0 <= m < |segs|
    && (forall i :: 0 <= i < |segs| ==> !Better(segs[i], segs[m], x))
    && (forall i :: 0 <= i < m ==> Better(segs[m], segs[i], x))
  }

  /** The segments of all operands in force at column x. */
  function Slice(lfs: seq<LayoutFn>, x: int): (segs: seq<Segment>)
    requires (forall o :: 0 <= o < |lfs| ==> Valid(lfs[o])) && 0 <= x
    ensures |segs| == |lfs|
  {
    seq(|lfs|, o requires 0 <= o < |lfs| => lfs[o][At(lfs[o], x)])
  }

  /** At column x the result lays the code out like the best operand there. */
  ghost predicate PicksBest(lfs: seq<LayoutFn>, result: LayoutFn, x: int)
    requires (forall o :: 0 <= o < |lfs| ==> Valid(lfs[o])) && Valid(result) && 0 <= x
  {
    var r := result[At(result, x)];
    exists m :: IsBest(Slice(lfs, x), x, m) && LooksLike(r, Slice(lfs, x)[m], x)
  }

  predicate LooksLike(r: Segment, s: Segment, x: int) {
    r.layout == s.layout && r.span == s.span && r.gradient == s.gradient && r.CostAt(x) == s.CostAt(x)
  }

  // ----- between two columns

  /** Rounding up, as std::ceil does on the quotient. */
  function CeilDiv(p: int, q: int): int
    requires q > 0
  {
    (p + q - 1) / q
  }

  lemma BelowCeil(p: int, q: int, t: int)
    requires q > 0 && t < CeilDiv(p, q)
    ensures t * q < p
  {
    var c := CeilDiv(p, q);
    assert c * q <= p + q - 1;
    assert (t + 1) * q <= c * q;
  }

  lemma CeilPositive(p: int, q: int)
    requires q > 0 && p > 0
    ensures CeilDiv(p, q) > 0
  {
  }

  /** The column from which segment s is preferred over the current best m. */
  function Crossover(m: Segment, s: Segment, c: int): int
    requires s.gradient < m.gradient
  {
    c + CeilDiv(s.CostAt(c) - m.CostAt(c), m.gradient - s.gradient)
  }

  /** Nothing overtakes the best segment before the first crossover. */
  lemma StaysBehind(m: Segment, s: Segment, c: int, x: int)
    requires c <= x && !Better(s, m, c)
    requires s.gradient < m.gradient ==> x < Crossover(m, s, c)
    ensures !Better(s, m, x)
    ensures Better(m, s, c) ==> Better(m, s, x)
    ensures s.gradient < m.gradient ==> Better(m, s, x)
  {
    CostShift(m, c, x);
    CostShift(s, c, x);
    var p, q, t := s.CostAt(c) - m.CostAt(c), m.gradient - s.gradient, x - c;
    assert s.CostAt(x) - m.CostAt(x) == p - t * q;
    if q > 0 {
      BelowCeil(p, q, t);
    } else if q < 0 {
      assert t > 0 ==> t * q < 0;
    }
  }

  lemma BestStays(segs: seq<Segment>, c: int, x: int, m: int)
    requires IsBest(segs, c, m) && c <= x
    requires forall i :: 0 <= i < |segs| && segs[i].gradient < segs[m].gradient ==> x < Crossover(segs[m], segs[i], c)
    ensures IsBest(segs, x, m)
  {
    forall i | 0 <= i < |segs|
      ensures !Better(segs[i], segs[m], x)
      ensures i < m ==> Better(segs[m], segs[i], x)
    {
      StaysBehind(segs[m], segs[i], c, x);
    }
  }

  // ----- where the result changes

  /** Operand m is the best at column x, with its segment i. */
  ghost predicate Chosen(lfs: seq<LayoutFn>, x: int, m: int, i: int)
    requires (forall o :: 0 <= o < |lfs| ==> Valid(lfs[o])) && 0 <= x
  {
    IsBest(Slice(lfs, x), x, m) && i == At(lfs[m], x)
  }

  /** The operand chosen, or its segment, changes at column c. */
  ghost predicate ChoiceChanges(lfs: seq<LayoutFn>, c: int)
    requires (forall o :: 0 <= o < |lfs| ==> Valid(lfs[o])) && 0 < c
  {
    ChoosesOtherwise(lfs, c - 1, c)
  }

  ghost predicate ChoosesOtherwise(lfs: seq<LayoutFn>, b: int, c: int)
    requires (forall o :: 0 <= o < |lfs| ==> Valid(lfs[o])) && 0 <= b && 0 <= c
  {
    exists m, i, m', i' :: Chosen(lfs, c, m, i) && Chosen(lfs, b, m', i') && (m != m' || i != i')
  }

  lemma BestUnique(segs: seq<Segment>, x: int, m: int, n: int)
    requires IsBest(segs, x, m) && IsBest(segs, x, n)
    ensures m == n
  {
    assert !Better(segs[n], segs[m], x) && !Better(segs[m], segs[n], x);
  }

  lemma ChangesIs(lfs: seq<LayoutFn>, c: int, m: int, i: int, m': int, i': int)
    requires (forall o :: 0 <= o < |lfs| ==> Valid(lfs[o])) && 0 < c
    requires Chosen(lfs, c, m, i) && Chosen(lfs, c - 1, m', i')
    ensures ChoiceChanges(lfs, c) <==> m != m' || i != i'
  {
    ChosenUnique(lfs, c, m, i);
    ChosenUnique(lfs, c - 1, m', i');
  }

  lemma ChosenUnique(lfs: seq<LayoutFn>, x: int, m: int, i: int)
    requires (forall o :: 0 <= o < |lfs| ==> Valid(lfs[o])) && 0 <= x && Chosen(lfs, x, m, i)
    ensures forall n, j :: Chosen(lfs, x, n, j) ==> n == m && j == i
  {
    forall n, j | Chosen(lfs, x, n, j) ensures n == m && j == i {
      BestUnique(Slice(lfs, x), x, m, n);
    }
  }

  /** Up to column c the knots are just the columns where the choice changes. */
  ghost predicate ChoiceKnots(lfs: seq<LayoutFn>, result: LayoutFn, c: int)
    requires forall o :: 0 <= o < |lfs| ==> Valid(lfs[o])
  {
    forall d :: 0 <= d < c ==> (KnotOf(result, d) <==> d == 0 || ChoiceChanges(lfs, d))
  }

  /** What Choice yields, down to its knots. */
  ghost predicate IsChoice(lfs: seq<LayoutFn>, result: LayoutFn) {
    && lfs != [] && (forall o :: 0 <= o < |lfs| ==> Valid(lfs[o])) && Valid(result)
    && (forall x :: 0 <= x < INFINITY ==> PicksBest(lfs, result, x))
    && ChoiceKnots(lfs, result, INFINITY)
  }

  // ----- the sweep

  /** std::min_element with the comparison of the code. */
  method MinElement(segs: seq<Segment>, c: int) returns (m: int)
    requires segs != []
    ensures IsBest(segs, c, m)
  {
    m := 0;
    for i := 1 to |segs|
      invariant 0 <= m < i
      invariant forall j :: 0 <= j < i ==> !Better(segs[j], segs[m], c)
      invariant forall j :: 0 <= j < m ==> Better(segs[m], segs[j], c)
    {
      if Better(segs[i], segs[m], c) {
        m := i;
      }
    }
  }

  /** The closest crossover before the next knot, or that knot. */
  method NextColumn(segs: seq<Segment>, c: int, m: int, nextKnot: int) returns (next: int)
    requires IsBest(segs, c, m) && c < nextKnot
    ensures c < next <= nextKnot
    ensures forall i :: 0 <= i < |segs| && segs[i].gradient < segs[m].gradient ==> next <= Crossover(segs[m], segs[i], c)
  {
    next := nextKnot;
    for k := 0 to |segs|
      invariant c < next <= nextKnot
      invariant forall i :: 0 <= i < k && segs[i].gradient < segs[m].gradient ==> next <= Crossover(segs[m], segs[i], c)
    {
      if segs[k].gradient < segs[m].gradient {
        CeilPositive(segs[k].CostAt(c) - segs[m].CostAt(c), segs[m].gradient - segs[k].gradient);
        var column := Crossover(segs[m], segs[k], c);
        if column > c && column < next {
          next := column;
        }
      }
    }
  }

  /** Points every iterator to the segment under a column; nextKnot is the next knot of any operand. */
  method MoveAll(lfs: seq<LayoutFn>, its0: seq<int>, c: int) returns (its: seq<int>, nextKnot: int)
    requires lfs != [] && forall o :: 0 <= o < |lfs| ==> Valid(lfs[o])
    requires |its0| == |lfs| && forall o :: 0 <= o < |lfs| ==> 0 <= its0[o] < |lfs[o]|
    requires 0 <= c < INFINITY
    ensures |its| == |lfs| && forall o :: 0 <= o < |lfs| ==> its[o] == At(lfs[o], c)
    ensures c < nextKnot <= INFINITY
    ensures forall x :: c <= x < nextKnot ==> Slice(lfs, x) == Slice(lfs, c)
    ensures forall o, x :: 0 <= o < |lfs| && c <= x < nextKnot ==> At(lfs[o], x) == At(lfs[o], c)
    ensures nextKnot == INFINITY || SomeKnot(lfs, nextKnot)
  {
    hide Valid, Slice, At, KnotOf, SomeKnot;
    its, nextKnot := its0, INFINITY;
    for k := 0 to |lfs|
      invariant |its| == |lfs| && forall o :: 0 <= o < k ==> its[o] == At(lfs[o], c)
      invariant forall o :: k <= o < |lfs| ==> its[o] == its0[o]
      invariant c < nextKnot <= INFINITY
      invariant forall o :: 0 <= o < k ==> At(lfs[o], c) + 1 < |lfs[o]| ==> nextKnot <= lfs[o][At(lfs[o], c) + 1].column
      invariant nextKnot == INFINITY || SomeKnot(lfs, nextKnot)
    {
      var i := MoveToKnotAtOrToTheLeftOf(lfs[k], its[k], c);
      its := its[k := i];
      var column := if i + 1 == |lfs[k]| then INFINITY else lfs[k][i + 1].column;
      assert column == INFINITY || SomeKnot(lfs, column) by {
        if i + 1 < |lfs[k]| {
          KnotAmong(lfs, k, i + 1);
        }
      }
      nextKnot := if column < nextKnot then column else nextKnot;
    }
    SameUntil(lfs, c, nextKnot);
  }

  lemma SameUntil(lfs: seq<LayoutFn>, c: int, nextKnot: int)
    requires (forall o :: 0 <= o < |lfs| ==> Valid(lfs[o])) && 0 <= c
    requires forall o :: 0 <= o < |lfs| ==> At(lfs[o], c) + 1 < |lfs[o]| ==> nextKnot <= lfs[o][At(lfs[o], c) + 1].column
    ensures forall o, x :: 0 <= o < |lfs| && c <= x < nextKnot ==> At(lfs[o], x) == At(lfs[o], c)
    ensures forall x :: c <= x < nextKnot ==> Slice(lfs, x) == Slice(lfs, c)
  {
    hide SegmentOk;
    forall x, o | c <= x < nextKnot && 0 <= o < |lfs| ensures At(lfs[o], x) == At(lfs[o], c) {
      AtUnique(lfs[o], x, At(lfs[o], c));
    }
    hide Valid;
    forall x | c <= x < nextKnot ensures Slice(lfs, x) == Slice(lfs, c) {
      assert forall o :: 0 <= o < |lfs| ==> At(lfs[o], x) == At(lfs[o], c);
    }
  }

  lemma KnotAmong(lfs: seq<LayoutFn>, o: nat, i: nat)
    requires o < |lfs| && i < |lfs[o]|
    ensures SomeKnot(lfs, lfs[o][i].column)
  {
    assert KnotOf(lfs[o], lfs[o][i].column);
  }

  /** Some operand has a knot at c. */
  predicate SomeKnot(lfs: seq<LayoutFn>, c: int) {
    exists o :: 0 <= o < |lfs| && KnotOf(lfs[o], c)
  }

  /** The result so far is right at every column before c. */
  ghost predicate Swept(lfs: seq<LayoutFn>, result: LayoutFn, c: int)
    requires forall o :: 0 <= o < |lfs| ==> Valid(lfs[o])
  {
    && (c == 0 ==> result == [])
    && (0 < c ==> Valid(result) && result[|result| - 1].column < c
                  && forall x :: 0 <= x < c ==> PicksBest(lfs, result, x))
  }

  /** The last segment of the result continues segment s. */
  ghost predicate Continues(result: LayoutFn, s: Segment) {
    result != [] && var r := result[|result| - 1];
    r.layout == s.layout && r.span == s.span && r.gradient == s.gradient && r.intercept == s.CostAt(r.column)
  }

  lemma ContinuesLooksLike(r: Segment, s: Segment, x: int)
    requires r.gradient == s.gradient && r.intercept == s.CostAt(r.column)
    ensures r.CostAt(x) == s.CostAt(x)
  {
    CostShift(s, r.column, x);
  }

  /** One step of the sweep: from column c up to next the best segment m stays best. */
  lemma SweepStep(lfs: seq<LayoutFn>, old_: LayoutFn, result: LayoutFn, c: int, next: int, m: int)
    requires lfs != [] && (forall o :: 0 <= o < |lfs| ==> Valid(lfs[o])) && 0 <= c < next <= INFINITY
    requires Swept(lfs, old_, c)
    requires IsBest(Slice(lfs, c), c, m)
    requires forall x :: c <= x < next ==> Slice(lfs, x) == Slice(lfs, c)
    requires var segs := Slice(lfs, c);
             forall i :: 0 <= i < |segs| && segs[i].gradient < segs[m].gradient ==> next <= Crossover(segs[m], segs[i], c)
    requires var s := Slice(lfs, c)[m];
             || (result == old_ && 0 < c && Continues(old_, s))
             || result == old_ + [Segment(c, s.layout, s.span, s.CostAt(c), s.gradient)]
    ensures Swept(lfs, result, next)
    ensures Continues(result, Slice(lfs, c)[m])
  {
    hide SegmentOk;
    var segs := Slice(lfs, c);
    var s := segs[m];
    SegmentsOk(lfs, c, m);
    CostShift(s, c, c);
    if result != old_ && 0 < c {
      AppendKnot(old_, result[|result| - 1]);
    }
    forall x | 0 <= x < next ensures PicksBest(lfs, result, x) {
      if c <= x {
        BestStays(segs, c, x, m);
        AtUnique(result, x, |result| - 1);
        ContinuesLooksLike(result[|result| - 1], s, x);
        assert IsBest(Slice(lfs, x), x, m) && LooksLike(result[At(result, x)], Slice(lfs, x)[m], x);
      } else {
        assert PicksBest(lfs, old_, x);
      }
    }
  }

  lemma OnlyChoice(lfs: seq<LayoutFn>)
    requires |lfs| == 1 && Valid(lfs[0])
    ensures IsChoice(lfs, lfs[0])
  {
    OnlyKnots(lfs);
    forall x | 0 <= x < INFINITY ensures PicksBest(lfs, lfs[0], x) {
      assert IsBest(Slice(lfs, x), x, 0) && LooksLike(lfs[0][At(lfs[0], x)], Slice(lfs, x)[0], x);
    }
  }

  lemma OnlyKnots(lfs: seq<LayoutFn>)
    requires |lfs| == 1 && Valid(lfs[0])
    ensures ChoiceKnots(lfs, lfs[0], INFINITY)
  {
    forall d | 0 <= d < INFINITY ensures KnotOf(lfs[0], d) <==> d == 0 || ChoiceChanges(lfs, d) {
      if d == 0 {
        assert lfs[0][0].column == 0;
      } else {
        KnotsChange(lfs[0], d);
        assert IsBest(Slice(lfs, d), d, 0) && IsBest(Slice(lfs, d - 1), d - 1, 0);
        ChangesIs(lfs, d, 0, At(lfs[0], d), 0, At(lfs[0], d - 1));
      }
    }
  }

  /** The knots up to the next step: none but c, and c only if the choice changed. */
  lemma KnotsStep(
      lfs: seq<LayoutFn>, old_: LayoutFn, result: LayoutFn, c: int, next: int, m: int, i: int, m': int, i': int)
    requires lfs != [] && (forall o :: 0 <= o < |lfs| ==> Valid(lfs[o])) && 0 <= c < next <= INFINITY
    requires Swept(lfs, old_, c) && ChoiceKnots(lfs, old_, c)
    requires forall x :: c <= x < next ==> Chosen(lfs, x, m, i)
    requires 0 < c ==> Chosen(lfs, c - 1, m', i')
    requires if c == 0 || m != m' || i != i' then |result| == |old_| + 1 && result[..|old_|] == old_ && result[|old_|].column == c
             else result == old_
    ensures ChoiceKnots(lfs, result, next)
  {
    hide Chosen, PicksBest, IsBest, SegmentOk, ChoiceChanges;
    forall d | 0 <= d < next ensures KnotOf(result, d) <==> d == 0 || ChoiceChanges(lfs, d) {
      if result != old_ {
        assert result == old_ + [result[|old_|]];
        KnotAppended(old_, result[|old_|], d);
      }
      if c <= d {
        assert !KnotOf(old_, d) by {
          if 0 < c {
            KnotsEnd(old_, d);
          }
        }
        if 0 < d {
          if c < d {
            ChangesIs(lfs, d, m, i, m, i);
          } else {
            ChangesIs(lfs, d, m, i, m', i');
          }
        }
      }
    }
  }

  /** From column c up to next the same segment of the same operand is chosen. */
  lemma StaysChosen(lfs: seq<LayoutFn>, c: int, next: int, m: int)
    requires lfs != [] && (forall o :: 0 <= o < |lfs| ==> Valid(lfs[o])) && 0 <= c < next <= INFINITY
    requires IsBest(Slice(lfs, c), c, m)
    requires forall x :: c <= x < next ==> Slice(lfs, x) == Slice(lfs, c)
    requires forall o, x :: 0 <= o < |lfs| && c <= x < next ==> At(lfs[o], x) == At(lfs[o], c)
    requires var segs := Slice(lfs, c);
             forall i :: 0 <= i < |segs| && segs[i].gradient < segs[m].gradient ==> next <= Crossover(segs[m], segs[i], c)
    ensures forall x :: c <= x < next ==> Chosen(lfs, x, m, At(lfs[m], c))
  {
    forall x | c <= x < next ensures Chosen(lfs, x, m, At(lfs[m], c)) {
      BestStays(Slice(lfs, c), c, x, m);
    }
  }

  lemma BestIsOne(segs: seq<Segment>, c: int, m: int)
    requires IsBest(segs, c, m)
    ensures 0 <= m < |segs|
  {
  }

  lemma NothingSwept(lfs: seq<LayoutFn>)
    requires forall o :: 0 <= o < |lfs| ==> Valid(lfs[o])
    ensures Swept(lfs, [], 0) && ChoiceKnots(lfs, [], 0)
  {
  }

  lemma SweptMeans(lfs: seq<LayoutFn>, result: LayoutFn, c: int)
    requires lfs != [] && (forall o :: 0 <= o < |lfs| ==> Valid(lfs[o])) && c == INFINITY
    requires Swept(lfs, result, c) && ChoiceKnots(lfs, result, c)
    ensures IsChoice(lfs, result)
  {
  }

  lemma SegmentsOk(lfs: seq<LayoutFn>, c: int, m: int)
    requires (forall o :: 0 <= o < |lfs| ==> Valid(lfs[o])) && 0 <= c && 0 <= m < |lfs|
    ensures var s := Slice(lfs, c)[m]; SegmentOk(s) && SegmentOk(Segment(c, s.layout, s.span, s.CostAt(c), s.gradient))
  {
    assert Valid(lfs[m]);
  }

  /** What the sweep keeps: the result is right before column c, and o and i are what was chosen last;
      operand |lfs| does not exist. */
  ghost predicate SweepState(lfs: seq<LayoutFn>, result: LayoutFn, c: int, o: int, i: int)
    requires forall o :: 0 <= o < |lfs| ==> Valid(lfs[o])
  {
    && Swept(lfs, result, c) && ChoiceKnots(lfs, result, c)
    && (o == |lfs| <==> c == 0)
    && (0 < c ==> 0 <= o < |lfs| && 0 <= i < |lfs[o]| && Continues(result, lfs[o][i]) && Chosen(lfs, c - 1, o, i))
  }

  lemma SweepStarts(lfs: seq<LayoutFn>)
    requires forall o :: 0 <= o < |lfs| ==> Valid(lfs[o])
    ensures SweepState(lfs, [], 0, |lfs|, 0)
  {
    NothingSwept(lfs);
  }

  /** One step of the loop: a new segment if the choice changes, and on to the next crossover or knot. */
  lemma StateStep(
      lfs: seq<LayoutFn>, before: LayoutFn, result: LayoutFn, c: int, next: int, m: int, i: int, o: int, j: int)
    requires lfs != [] && (forall o :: 0 <= o < |lfs| ==> Valid(lfs[o])) && 0 <= c < next <= INFINITY
    requires SweepState(lfs, before, c, o, j) && 0 <= m < |lfs| && i == At(lfs[m], c)
    requires IsBest(Slice(lfs, c), c, m)
    requires forall x :: c <= x < next ==> Slice(lfs, x) == Slice(lfs, c)
    requires forall o, x :: 0 <= o < |lfs| && c <= x < next ==> At(lfs[o], x) == At(lfs[o], c)
    requires var segs := Slice(lfs, c);
             forall i :: 0 <= i < |segs| && segs[i].gradient < segs[m].gradient ==> next <= Crossover(segs[m], segs[i], c)
    requires var s := Slice(lfs, c)[m];
             result == if m != o || i != j then before + [Segment(c, s.layout, s.span, s.CostAt(c), s.gradient)] else before
    ensures SweepState(lfs, result, next, m, i)
  {
    StaysChosen(lfs, c, next, m);
    SweepStep(lfs, before, result, c, next, m);
    hide Swept, ChoiceKnots, Chosen, Continues, IsBest, SegmentOk;
    KnotsStep(lfs, before, result, c, next, m, i, o, j);
  }

  lemma SweepEnds(lfs: seq<LayoutFn>, result: LayoutFn, c: int, o: int, i: int)
    requires lfs != [] && (forall o :: 0 <= o < |lfs| ==> Valid(lfs[o])) && c == INFINITY && SweepState(lfs, result, c, o, i)
    ensures IsChoice(lfs, result)
  {
    SweptMeans(lfs, result, c);
  }

  lemma SomeSegment(lfs: seq<LayoutFn>)
    requires forall o :: 0 <= o < |lfs| ==> Valid(lfs[o])
    ensures forall o :: 0 <= o < |lfs| ==> 0 < |lfs[o]|
  {
  }

  /** The inner loop: from crossover to crossover up to the next knot of an operand. */
  method SweepTo(lfs: seq<LayoutFn>, its: seq<int>, c0: int, nextKnot: int, result0: LayoutFn, o0: int, i0: int)
    returns (result: LayoutFn, lastOperand: int, lastIndex: int)
    requires lfs != [] && (forall o :: 0 <= o < |lfs| ==> Valid(lfs[o])) && 0 <= c0 < nextKnot <= INFINITY
    requires |its| == |lfs| && forall o :: 0 <= o < |lfs| ==> its[o] == At(lfs[o], c0)
    requires forall x :: c0 <= x < nextKnot ==> Slice(lfs, x) == Slice(lfs, c0)
    requires forall o, x :: 0 <= o < |lfs| && c0 <= x < nextKnot ==> At(lfs[o], x) == At(lfs[o], c0)
    requires SweepState(lfs, result0, c0, o0, i0)
    ensures SweepState(lfs, result, nextKnot, lastOperand, lastIndex)
  {
    hide SweepState, IsBest, SegmentOk, Valid, Crossover, At;
    result, lastOperand, lastIndex := result0, o0, i0;
    var c := c0;
    while c < nextKnot
      invariant c0 <= c <= nextKnot
      invariant SweepState(lfs, result, c, lastOperand, lastIndex)
    {
      var segs := seq(|lfs|, o requires 0 <= o < |lfs| => lfs[o][its[o]]);
      assert segs == Slice(lfs, c0) == Slice(lfs, c);
      var m := MinElement(segs, c);
      BestIsOne(segs, c, m);
      ghost var before, o, j := result, lastOperand, lastIndex;
      if m != lastOperand || its[m] != lastIndex {
        result := result + [Segment(c, segs[m].layout, segs[m].span, segs[m].CostAt(c), segs[m].gradient)];
        lastOperand, lastIndex := m, its[m];
      }
      var next := NextColumn(segs, c, m, nextKnot);
      StateStep(lfs, before, result, c, next, m, its[m], o, j);
      c := next;
    }
  }

  method Choice(lfs: seq<LayoutFn>) returns (result: LayoutFn)
    requires forall o :: 0 <= o < |lfs| ==> Valid(lfs[o])
    ensures lfs == [] ==> result == []
    ensures lfs != [] ==> IsChoice(lfs, result)
  {
    if lfs == [] {
      return [];
    }
    if |lfs| == 1 {
      OnlyChoice(lfs);
      return lfs[0];
    }
    hide SweepState, IsChoice, SegmentOk, Valid, SomeKnot, At, Slice;
    SomeSegment(lfs);
    result := [];
    SweepStarts(lfs);
    var its := seq(|lfs|, _ => 0);
    // The operand and segment chosen last.
    var lastOperand, lastIndex := |lfs|, 0;
    var c := 0;
    while c < INFINITY
      invariant 0 <= c <= INFINITY && |its| == |lfs| && forall o :: 0 <= o < |lfs| ==> 0 <= its[o] < |lfs[o]|
      invariant SweepState(lfs, result, c, lastOperand, lastIndex)
      decreases INFINITY - c
    {
      var nextKnot;
      its, nextKnot := MoveAll(lfs, its, c);
      result, lastOperand, lastIndex := SweepTo(lfs, its, c, nextKnot, result, lastOperand, lastIndex);
      c := nextKnot;
    }
    SweepEnds(lfs, result, c, lastOperand, lastIndex);
  }
}

/** The search for the cheapest line wrapping (verible/common/formatting/line-wrap-searcher.cc). */
module LineWrapSearch {
  import opened StateNodes

  // ----- all decision sequences

  /** The decisions the search tries before a token. */
  predicate Allowed(token: PreFormatToken, choice: SpacingDecision) {
    match token.breakDecision
    case Preserve => choice == KPreserve
    case MustWrap => choice == KWrap
    case MustAppend => choice == KAppend
    case _ => choice == KAppend || choice == KWrap
  }

  /** ds[i] decides the spacing before token i + 1. */
  ghost predicate Legal(line: UnwrappedLine, ds: seq<SpacingDecision>) {
    |ds| < |line.tokens| && forall i :: 0 <= i < |ds| ==> Allowed(line.tokens[i + 1], ds[i])
  }

  ghost predicate Complete(line: UnwrappedLine, ds: seq<SpacingDecision>) {
    Legal(line, ds) && |ds| == |line.tokens| - 1
  }

  /** The state that a sequence of decisions leads to. */
  ghost function NodeOf(line: UnwrappedLine, style: Style, ds: seq<SpacingDecision>): (node: StateNode)
    requires |ds| < |line.tokens|
    ensures node.depth == |ds| + 1
  {
    if ds == [] then Root(line, style)
    else Next(line, style, NodeOf(line, style, ds[..|ds| - 1]), ds[|ds| - 1])
  }

  ghost predicate Reachable(line: UnwrappedLine, style: Style, node: StateNode) {
    exists ds :: Legal(line, ds) && node == NodeOf(line, style, ds)
  }

  predicate PenaltiesOk(line: UnwrappedLine, style: Style) {
    0 <= style.overColumnLimitPenalty && forall i :: 0 <= i < |line.tokens| ==> 0 <= line.tokens[i].breakPenalty
  }

  lemma {:induction false} ReachableIsPath(line: UnwrappedLine, style: Style, ds: seq<SpacingDecision>)
    requires Legal(line, ds)
    ensures IsPath(line, style, NodeOf(line, style, ds))
    decreases |ds|
  {
    if ds != [] {
      ReachableIsPath(line, style, ds[..|ds| - 1]);
    }
  }

  /** A decision never lowers the cost. */
  lemma {:induction false} CostGrows(line: UnwrappedLine, style: Style, ds: seq<SpacingDecision>, k: nat)
    requires Legal(line, ds) && k <= |ds| && PenaltiesOk(line, style)
    ensures NodeOf(line, style, ds[..k]).cost <= NodeOf(line, style, ds).cost
    decreases |ds|
  {
    if k == |ds| {
      assert ds[..k] == ds;
    } else {
      var init := ds[..|ds| - 1];
      assert ds[..k] == init[..k];
      CostGrows(line, style, init, k);
    }
  }

  /** Every line has some complete sequence of decisions. */
  ghost function SomeDecisions(line: UnwrappedLine, n: nat): (ds: seq<SpacingDecision>)
    requires n < |line.tokens|
    ensures |ds| == n && Legal(line, ds)
  {
    if n == 0 then [] else
      SomeDecisions(line, n - 1)
      + [match line.tokens[n].breakDecision case Preserve => KPreserve case MustWrap => KWrap case _ => KAppend]
  }

  // ----- the worklist

  /** The order of the priority queue: cost first, then column. */
  predicate Less(s: StateNode, t: StateNode) {
    s.cost < t.cost || (s.cost == t.cost && s.column < t.column)
  }

  function Pow2(n: nat): nat { if n == 0 then 1 else 2 * Pow2(n - 1) }

  /** The number of states a state can still give rise to, itself included. */
  function Weight(line: UnwrappedLine, node: StateNode): (w: nat)
    ensures 0 < w
  {
    var undecided := if node.depth < |line.tokens| then |line.tokens| - node.depth else 0;
    PowPositive(undecided);
    2 * Pow2(undecided) - 1
  }

  lemma {:induction false} PowPositive(n: nat)
    ensures 0 < Pow2(n)
  {
    if 0 < n { PowPositive(n - 1); }
  }

  function TotalWeight(line: UnwrappedLine, worklist: seq<StateNode>): nat {
    if worklist == [] then 0 else TotalWeight(line, worklist[..|worklist| - 1]) + Weight(line, worklist[|worklist| - 1])
  }

  lemma {:induction false} TotalWeightConcat(line: UnwrappedLine, s: seq<StateNode>, t: seq<StateNode>)
    ensures TotalWeight(line, s + t) == TotalWeight(line, s) + TotalWeight(line, t)
    decreases |t|
  {
    if t == [] {
      assert s + t == s;
    } else {
      TotalWeightConcat(line, s, t[..|t| - 1]);
      assert (s + t)[..|s + t| - 1] == s + t[..|t| - 1];
    }
  }

  /** Takes a state of highest priority out of the worklist. */
  method PopTop(line: UnwrappedLine, worklist: seq<StateNode>) returns (next: StateNode, rest: seq<StateNode>)
    requires worklist != []
    ensures next in worklist && forall w :: w in worklist <==> w == next || w in rest
    ensures forall w :: w in worklist ==> !Less(w, next)
    ensures TotalWeight(line, rest) + Weight(line, next) == TotalWeight(line, worklist)
  {
    var m := 0;
    for i := 1 to |worklist|
      invariant 0 <= m < i && forall j :: 0 <= j < i ==> !Less(worklist[j], worklist[m])
    {
      if Less(worklist[i], worklist[m]) {
        m := i;
      }
    }
    next := worklist[m];
    rest := worklist[..m] + worklist[m + 1..];
    assert worklist == worklist[..m] + [next] + worklist[m + 1..];
    TotalWeightConcat(line, worklist[..m], worklist[m + 1..]);
    TotalWeightConcat(line, worklist[..m] + [next], worklist[m + 1..]);
    TotalWeightConcat(line, worklist[..m], [next]);
    assert [next][..0] == [];
  }

  // ----- what the search keeps

  /** Some prefix of ds is still to be explored. */
  ghost predicate Pending(line: UnwrappedLine, style: Style, ds: seq<SpacingDecision>, frontier: seq<StateNode>)
    requires |ds| < |line.tokens|
  {
    exists k :: 0 <= k <= |ds| && NodeOf(line, style, ds[..k]) in frontier
  }

  /** Every complete sequence of decisions has won or is still to be explored. */
  ghost predicate Covered(line: UnwrappedLine, style: Style, frontier: seq<StateNode>, winners: seq<StateNode>) {
    forall ds :: Complete(line, ds) ==> Pending(line, style, ds, frontier) || NodeOf(line, style, ds) in winners
  }

  /** The states that follow from node, one for each allowed decision. */
  method Expand(line: UnwrappedLine, style: Style, next: StateNode) returns (successors: seq<StateNode>)
    requires 0 < next.depth < |line.tokens|
    ensures |successors| <= 2
    ensures forall s :: s in successors ==>
              exists c :: Allowed(line.tokens[next.depth], c) && s == Next(line, style, next, c)
    ensures forall c :: Allowed(line.tokens[next.depth], c) ==> Next(line, style, next, c) in successors
    ensures TotalWeight(line, successors) < Weight(line, next)
  {
    hide TotalWeight, Weight;
    var token := line.tokens[next.depth];
    successors := [];
    if token.breakDecision == Preserve {
      successors := successors + [Next(line, style, next, KPreserve)];
    } else {
      if token.breakDecision != MustWrap {
        successors := successors + [Next(line, style, next, KAppend)];
      }
      if token.breakDecision != MustAppend {
        successors := successors + [Next(line, style, next, KWrap)];
      }
    }
    ChildWeights(line, style, next, successors);
  }

  lemma ChildWeights(line: UnwrappedLine, style: Style, next: StateNode, successors: seq<StateNode>)
    requires 0 < next.depth < |line.tokens| && |successors| <= 2
    requires forall s :: s in successors ==> s.depth == next.depth + 1
    ensures TotalWeight(line, successors) < Weight(line, next)
  {
    var u := |line.tokens| - next.depth;
    if successors != [] {
      var init, last := successors[..|successors| - 1], successors[|successors| - 1];
      assert last in successors;
      if init != [] {
        assert init[0] == successors[0] && init[0] in successors;
        assert init == [init[0]] && init[..0] == [];
      }
    }
  }

  lemma SeedCovers(line: UnwrappedLine, style: Style)
    requires line.tokens != []
    ensures Covered(line, style, [Root(line, style)], [])
    ensures Reachable(line, style, Root(line, style))
  {
    forall ds | Complete(line, ds) ensures Pending(line, style, ds, [Root(line, style)]) {
      assert ds[..0] == [] && NodeOf(line, style, ds[..0]) in [Root(line, style)];
    }
    assert Legal(line, []) && Root(line, style) == NodeOf(line, style, []);
  }

  /** A state is replaced by its successors. */
  lemma ExpandCovers(
      line: UnwrappedLine, style: Style, next: StateNode, worklist: seq<StateNode>, rest: seq<StateNode>,
      successors: seq<StateNode>, winners: seq<StateNode>)
    requires Covered(line, style, worklist, winners) && 0 < next.depth < |line.tokens|
    requires forall w :: w in worklist ==> w == next || w in rest
    requires forall c :: Allowed(line.tokens[next.depth], c) ==> Next(line, style, next, c) in successors
    ensures Covered(line, style, rest + successors, winners)
  {
    forall ds | Complete(line, ds) && NodeOf(line, style, ds) !in winners
      ensures Pending(line, style, ds, rest + successors)
    {
      var k :| 0 <= k <= |ds| && NodeOf(line, style, ds[..k]) in worklist;
      var node := NodeOf(line, style, ds[..k]);
      if node !in rest {
        assert ds[..k + 1][..k] == ds[..k];
        assert NodeOf(line, style, ds[..k + 1]) == Next(line, style, node, ds[k]);
        assert NodeOf(line, style, ds[..k + 1]) in rest + successors;
      } else {
        assert node in rest + successors;
      }
    }
  }

  /** A finished state moves to the winners. */
  lemma WinCovers(
      line: UnwrappedLine, style: Style, next: StateNode, worklist: seq<StateNode>, rest: seq<StateNode>, winners: seq<StateNode>)
    requires Covered(line, style, worklist, winners) && Done(line, next)
    requires forall w :: w in worklist ==> w == next || w in rest
    ensures Covered(line, style, rest, winners + [next])
  {
    hide NodeOf, Next;
    forall ds | Complete(line, ds) && NodeOf(line, style, ds) !in winners + [next]
      ensures Pending(line, style, ds, rest)
    {
      assert NodeOf(line, style, ds) !in winners;
      assert next in winners + [next];
      var k :| 0 <= k <= |ds| && NodeOf(line, style, ds[..k]) in worklist;
      if k == |ds| {
        assert ds[..k] == ds;
      }
      assert NodeOf(line, style, ds[..k]) != next;
    }
  }

  lemma SuccessorReachable(line: UnwrappedLine, style: Style, next: StateNode, c: SpacingDecision)
    requires Reachable(line, style, next) && 0 < next.depth < |line.tokens|
    requires Allowed(line.tokens[next.depth], c)
    ensures Reachable(line, style, Next(line, style, next, c))
  {
    var ds :| Legal(line, ds) && next == NodeOf(line, style, ds);
    var ds' := ds + [c];
    assert ds'[..|ds'| - 1] == ds;
    assert Legal(line, ds') && Next(line, style, next, c) == NodeOf(line, style, ds');
  }

  /** winner costs no more than any complete sequence of decisions. */
  ghost predicate IsCheapest(line: UnwrappedLine, style: Style, winner: StateNode) {
    forall ds :: Complete(line, ds) ==> winner.cost <= NodeOf(line, style, ds).cost
  }

  /** When nothing left is cheaper than the winners, the winners are cheapest. */
  lemma WinnersAreCheapest(
      line: UnwrappedLine, style: Style, frontier: seq<StateNode>, winners: seq<StateNode>, w: StateNode)
    requires PenaltiesOk(line, style) && Covered(line, style, frontier, winners)
    requires forall v :: v in winners ==> v.cost == w.cost
    requires forall f :: f in frontier ==> w.cost <= f.cost
    ensures IsCheapest(line, style, w)
  {
    hide NodeOf, Next;
    forall ds | Complete(line, ds) ensures w.cost <= NodeOf(line, style, ds).cost {
      if NodeOf(line, style, ds) !in winners {
        var k :| 0 <= k <= |ds| && NodeOf(line, style, ds[..k]) in frontier;
        CostGrows(line, style, ds, k);
      }
    }
  }

  lemma SomeWinner(line: UnwrappedLine, style: Style, winners: seq<StateNode>)
    requires line.tokens != [] && Covered(line, style, [], winners)
    ensures winners != []
  {
    var ds := SomeDecisions(line, |line.tokens| - 1);
    assert Complete(line, ds);
  }

  /** Everything in the worklist can be reached, and none of it is cheaper than a winner. */
  ghost predicate SearchInvariant(line: UnwrappedLine, style: Style, worklist: seq<StateNode>, winners: seq<StateNode>) {
    && Covered(line, style, worklist, winners)
    && (forall w :: w in worklist ==> Reachable(line, style, w))
    && (forall w :: w in winners ==> Reachable(line, style, w) && Done(line, w) && w.cost == winners[0].cost)
    && (winners != [] ==> forall w :: w in worklist ==> winners[0].cost <= w.cost)
  }

  lemma ReachableDepth(line: UnwrappedLine, style: Style, node: StateNode)
    requires Reachable(line, style, node)
    ensures 0 < node.depth <= |line.tokens| && IsPath(line, style, node)
  {
    var ds :| Legal(line, ds) && node == NodeOf(line, style, ds);
    ReachableIsPath(line, style, ds);
  }

  lemma ExpandKeeps(
      line: UnwrappedLine, style: Style, next: StateNode, worklist: seq<StateNode>, rest: seq<StateNode>,
      successors: seq<StateNode>, winners: seq<StateNode>)
    requires PenaltiesOk(line, style) && SearchInvariant(line, style, worklist, winners) && 0 < next.depth < |line.tokens|
    requires next in worklist && forall w :: w in worklist <==> w == next || w in rest
    requires forall c :: Allowed(line.tokens[next.depth], c) ==> Next(line, style, next, c) in successors
    requires forall s :: s in successors ==> exists c :: Allowed(line.tokens[next.depth], c) && s == Next(line, style, next, c)
    ensures SearchInvariant(line, style, rest + successors, winners)
  {
    ExpandCovers(line, style, next, worklist, rest, successors, winners);
    forall s | s in successors ensures Reachable(line, style, s) && next.cost <= s.cost {
      var c :| Allowed(line.tokens[next.depth], c) && s == Next(line, style, next, c);
      SuccessorReachable(line, style, next, c);
    }
  }

  lemma WinKeeps(
      line: UnwrappedLine, style: Style, next: StateNode, worklist: seq<StateNode>, rest: seq<StateNode>, winners: seq<StateNode>)
    requires SearchInvariant(line, style, worklist, winners) && Done(line, next)
    requires next in worklist && forall w :: w in worklist <==> w == next || w in rest
    requires forall w :: w in worklist ==> !Less(w, next)
    requires winners != [] ==> !Less(winners[0], next)
    ensures SearchInvariant(line, style, rest, winners + [next])
  {
    WinCovers(line, style, next, worklist, rest, winners);
  }

  /** Where the greedy completion goes on: on the same line while it fits, otherwise on a new one. */
  function GreedyNext(line: UnwrappedLine, style: Style, node: StateNode): StateNode
    requires 0 < node.depth < |line.tokens|
  {
    var appended := Next(line, style, node, KAppend);
    if line.tokens[node.depth].breakDecision != MustWrap && appended.column <= style.columnLimit then appended
    else Next(line, style, node, KWrap)
  }

  /** The greedy completion of a state. */
  function Greedy(line: UnwrappedLine, style: Style, node: StateNode): StateNode
    requires 0 < node.depth
    decreases |line.tokens| - node.depth
  {
    if Done(line, node) then node else Greedy(line, style, GreedyNext(line, style, node))
  }

  /** Appends the next token if it fits, otherwise wraps. */
  method AppendIfItFits(line: UnwrappedLine, style: Style, current: StateNode) returns (next: StateNode)
    requires IsPath(line, style, current)
    ensures IsPath(line, style, next) && 0 < current.depth
    ensures Done(line, current) ==> next == current
    ensures !Done(line, current) ==> next == GreedyNext(line, style, current)
  {
    PathInvariant(line, style, current);
    if Done(line, current) {
      return current;
    }
    var token := line.tokens[current.depth];
    var wrapped := Next(line, style, current, KWrap);
    var appended := Next(line, style, current, KAppend);
    next := if token.breakDecision == MustWrap || appended.column > style.columnLimit then wrapped else appended;
  }

  method QuickFinish(line: UnwrappedLine, style: Style, current: StateNode) returns (latest: StateNode)
    requires IsPath(line, style, current)
    ensures IsPath(line, style, latest) && Done(line, latest)
    ensures 0 < current.depth && latest == Greedy(line, style, current)
  {
    latest := current;
    PathInvariant(line, style, current);
    while !Done(line, latest)
      invariant IsPath(line, style, latest) && 0 < latest.depth
      invariant Greedy(line, style, latest) == Greedy(line, style, current)
      decreases |line.tokens| - latest.depth
    {
      latest := AppendIfItFits(line, style, latest);
    }
  }

  /** The states of a search are not deeper than it has had steps. */
  ghost predicate NotDeeper(nodes: seq<StateNode>, n: nat) {
    forall w :: w in nodes ==> w.depth <= n
  }

  lemma StillNotDeeper(nodes: seq<StateNode>, rest: seq<StateNode>, successors: seq<StateNode>, next: StateNode, n: nat)
    requires NotDeeper(nodes, n) && (forall w :: w in rest ==> w in nodes) && next in nodes
    requires forall s :: s in successors ==> s.depth == next.depth + 1
    ensures NotDeeper(rest + successors, n + 1)
  {
  }

  /** The exploration. Whether it is aborted depends on the limit alone as long as the limit is below the
      number of tokens or above the number of states; between the two it may depend on how ties are broken.
      Unless aborted, every winner is a cheapest complete sequence of decisions; otherwise the last winner
      is the greedy completion of a state that was reached, and the others are cheapest still. */
  method Explore(line: UnwrappedLine, style: Style, maxSearchStates: int)
    returns (winners: seq<StateNode>, aborted: bool)
    requires line.tokens != [] && PenaltiesOk(line, style)
    ensures winners != []
    ensures forall w :: w in winners ==> IsPath(line, style, w) && Done(line, w)
    ensures forall i :: 0 <= i < |winners| - (if aborted then 1 else 0) ==>
              Reachable(line, style, winners[i]) && IsCheapest(line, style, winners[i])
    ensures aborted ==> GreedilyFinished(line, style, winners[|winners| - 1])
    ensures |line.tokens| == 1 || Weight(line, Root(line, style)) <= maxSearchStates + 1 ==> !aborted
    ensures 1 < |line.tokens| && maxSearchStates < |line.tokens| ==> aborted
  {
    hide Covered, Reachable, IsPath, Next, Root, IsCheapest, NotDeeper, GreedilyFinished;
    var worklist := [Root(line, style)];
    SeedCovers(line, style);
    SeedState(line, style);
    winners, aborted := [], false;
    var stateCount := 0;
    while worklist != []
      invariant SearchInvariant(line, style, worklist, winners)
      invariant stateCount + TotalWeight(line, worklist) <= Weight(line, Root(line, style))
      invariant NotDeeper(worklist, stateCount + 1)
      invariant 1 < |line.tokens| && maxSearchStates < |line.tokens| ==>
                  winners == [] && (stateCount == 0 || stateCount < maxSearchStates)
      decreases TotalWeight(line, worklist)
    {
      stateCount := stateCount + 1;
      var next, rest := PopTop(line, worklist);
      ReachableDepth(line, style, next);
      PoppedDepth(worklist, next, stateCount);
      if winners != [] && Less(winners[0], next) {
        break;
      }
      if Done(line, next) {
        WinKeeps(line, style, next, worklist, rest, winners);
        winners := winners + [next];
        FewerNotDeeper(worklist, rest, next, stateCount);
        worklist := rest;
        continue;
      }
      NotDoneWeight(line, next);
      if stateCount >= maxSearchStates {
        SomeTokens(line, style, next);
        var finished := QuickFinish(line, style, next);
        AllPaths(line, style, winners);
        FinishedGreedily(line, style, next, finished);
        forall w | w in winners ensures IsCheapest(line, style, w) {
          WinnersAreCheapest(line, style, worklist, winners, w);
        }
        winners := winners + [finished];
        return winners, true;
      }
      var successors := Expand(line, style, next);
      ExpandKeeps(line, style, next, worklist, rest, successors, winners);
      TotalWeightConcat(line, rest, successors);
      SuccessorDepths(line, style, next, successors);
      StillNotDeeper(worklist, rest, successors, next, stateCount);
      worklist := rest + successors;
    }
    if worklist == [] {
      SomeWinner(line, style, winners);
    }
    AllPaths(line, style, winners);
    forall w | w in winners ensures IsCheapest(line, style, w) {
      WinnersAreCheapest(line, style, worklist, winners, w);
    }
  }

  /** The greedy completion of some state that legal decisions lead to. */
  ghost predicate GreedilyFinished(line: UnwrappedLine, style: Style, node: StateNode) {
    exists start :: Reachable(line, style, start) && 0 < start.depth && node == Greedy(line, style, start)
  }

  lemma FinishedGreedily(line: UnwrappedLine, style: Style, start: StateNode, node: StateNode)
    requires Reachable(line, style, start) && 0 < start.depth && node == Greedy(line, style, start)
    ensures GreedilyFinished(line, style, node)
  {
  }

  lemma SeedState(line: UnwrappedLine, style: Style)
    requires line.tokens != []
    ensures TotalWeight(line, [Root(line, style)]) == Weight(line, Root(line, style))
    ensures NotDeeper([Root(line, style)], 1) && Root(line, style).depth == 1
  {
    assert [Root(line, style)][..0] == [];
  }

  lemma PoppedDepth(worklist: seq<StateNode>, next: StateNode, n: nat)
    requires NotDeeper(worklist, n) && next in worklist
    ensures next.depth <= n
  {
  }

  lemma FewerNotDeeper(worklist: seq<StateNode>, rest: seq<StateNode>, next: StateNode, n: nat)
    requires NotDeeper(worklist, n) && forall w :: w in worklist <==> w == next || w in rest
    ensures NotDeeper(rest, n + 1)
  {
  }

  /** A state that is not done stands for at least three. */
  lemma NotDoneWeight(line: UnwrappedLine, node: StateNode)
    requires !Done(line, node)
    ensures 3 <= Weight(line, node)
  {
    PowPositive(|line.tokens| - node.depth - 1);
  }

  lemma SomeTokens(line: UnwrappedLine, style: Style, node: StateNode)
    requires !Done(line, node) && 0 < node.depth
    ensures 1 < |line.tokens|
  {
  }

  lemma SuccessorDepths(line: UnwrappedLine, style: Style, next: StateNode, successors: seq<StateNode>)
    requires 0 < next.depth < |line.tokens|
    requires forall s :: s in successors ==> exists c :: Allowed(line.tokens[next.depth], c) && s == Next(line, style, next, c)
    ensures forall s :: s in successors ==> s.depth == next.depth + 1
  {
  }

  lemma AllPaths(line: UnwrappedLine, style: Style, nodes: seq<StateNode>)
    requires forall w :: w in nodes ==> Reachable(line, style, w)
    ensures forall w :: w in nodes ==> IsPath(line, style, w)
  {
    forall w | w in nodes ensures IsPath(line, style, w) {
      ReachableDepth(line, style, w);
    }
  }

  /** The formatted lines for the winners, with their decisions bound. */
  method SearchLineWraps(line: UnwrappedLine, style: Style, maxSearchStates: int)
    returns (results: seq<FormattedExcerpt>, ghost winners: seq<StateNode>, ghost aborted: bool)
    requires PenaltiesOk(line, style)
    requires line.tokens != [] ==> line.tokens[0].breakDecision != AppendAligned
    ensures results != [] && forall r :: r in results ==> fresh(r)
    ensures line.tokens == [] ==> |results| == 1 && results[0].tokens == [] && results[0].indentation == 0
    ensures line.tokens != [] ==> |results| == |winners|
    ensures line.tokens != [] ==> forall i :: 0 <= i < |results| ==>
              && IsPath(line, style, winners[i]) && Done(line, winners[i])
              && results[i].tokens == DecidedTokens(winners[i], Unformatted(line))
              && results[i].completedFormatting == !aborted && results[i].indentation == line.indentation
    ensures line.tokens != [] ==> forall i :: 0 <= i < |results| - (if aborted then 1 else 0) ==>
              Reachable(line, style, winners[i]) && IsCheapest(line, style, winners[i])
    ensures line.tokens != [] && aborted ==> GreedilyFinished(line, style, winners[|winners| - 1])
    ensures |line.tokens| == 1 ==> !aborted
    ensures line.tokens != [] && Weight(line, Root(line, style)) <= maxSearchStates + 1 ==> !aborted
    ensures 1 < |line.tokens| && maxSearchStates < |line.tokens| ==> aborted
  {
    hide IsPath, Reachable, IsCheapest, DecidedTokens, Unformatted, GreedilyFinished, Weight, Root;
    results, winners, aborted := [], [], false;
    if line.tokens == [] {
      var empty := new FormattedExcerpt.Default();
      return [empty], [], false;
    }
    var winningPaths, abortedSearch := Explore(line, style, maxSearchStates);
    winners, aborted := winningPaths, abortedSearch;
    for i := 0 to |winningPaths|
      invariant |results| == i && forall r :: r in results ==> fresh(r)
      invariant forall j :: 0 <= j < i ==>
                  && results[j].tokens == DecidedTokens(winners[j], Unformatted(line))
                  && results[j].completedFormatting == !aborted && results[j].indentation == line.indentation
    {
      var result := new FormattedExcerpt(line);
      var path := winningPaths[i];
      assert path in winners;
      PathInvariant(line, style, path);
      result.ReconstructFormatDecisions(path, line, style);
      assert result.tokens == DecidedTokens(path, Unformatted(line));
      if abortedSearch {
        result.MarkIncomplete();
      }
      results := results + [result];
    }
  }

  /** Token n cannot be appended to the tokens before it. */
  ghost predicate FailsAt(line: UnwrappedLine, style: Style, n: nat)
    requires n < |line.tokens|
  {
    line.tokens[n].breakDecision == MustWrap || Appended(line, style, n).column > style.columnLimit
  }

  /** The column at which token n was found not to fit. */
  ghost function FailingColumn(line: UnwrappedLine, style: Style, n: nat): int
    requires 0 < n < |line.tokens|
  {
    if line.tokens[n].breakDecision == MustWrap then Appended(line, style, n - 1).column else Appended(line, style, n).column
  }

  /** Whether the tokens fit on one line, and the column at which this was decided. */
  method FitsOnLine(line: UnwrappedLine, style: Style) returns (fits: bool, finalColumn: int)
    ensures line.tokens == [] ==> fits && finalColumn == 0
    ensures line.tokens != [] && fits ==> finalColumn == Appended(line, style, |line.tokens| - 1).column
    ensures fits <==> forall n :: 0 < n < |line.tokens| ==> !FailsAt(line, style, n)
    ensures !fits ==> exists n :: 0 < n < |line.tokens| && FailsAt(line, style, n)
                                  && (forall m :: 0 < m < n ==> !FailsAt(line, style, m))
                                  && finalColumn == FailingColumn(line, style, n)
  {
    hide Next, Root;
    if line.tokens == [] {
      return true, 0;
    }
    var state := Root(line, style);
    ghost var n := 0;
    while !Done(line, state)
      invariant 0 <= n < |line.tokens| && state == Appended(line, style, n)
      invariant forall m :: 0 < m <= n ==> !FailsAt(line, style, m)
      decreases |line.tokens| - n
    {
      var token := line.tokens[state.depth];
      if token.breakDecision == MustWrap {
        assert FailsAt(line, style, n + 1) && state.column == FailingColumn(line, style, n + 1);
        return false, state.column;
      }
      state := Next(line, style, state, KAppend);
      n := n + 1;
      if state.column > style.columnLimit {
        assert FailsAt(line, style, n) && state.column == FailingColumn(line, style, n);
        return false, state.column;
      }
    }
    return true, state.column;
  }

  /** The state after appending n tokens to the first. */
  ghost function Appended(line: UnwrappedLine, style: Style, n: nat): (node: StateNode)
    requires n < |line.tokens|
    ensures node.depth == n + 1
  {
    if n == 0 then Root(line, style) else Next(line, style, Appended(line, style, n - 1), KAppend)
  }
}

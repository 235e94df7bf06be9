/** What the decisions of the line-wrap search mean on the page: the price of each in terms of the rendered
    text, and the column of a wrapped token in terms of the groups that are open before it. */
module LineWrapText {
  import opened StateNodes
  import opened LineWrapSearch

  /** Preserved tokens have a known original spacing. */
  predicate PreservedKnown(line: UnwrappedLine) {
    forall i :: 0 < i < |line.tokens| && line.tokens[i].breakDecision == Preserve ==> line.tokens[i].originalSpaces.Some?
  }

  /** The text rendered up to the last token decided. */
  ghost function TextOf(line: UnwrappedLine, style: Style, ds: seq<SpacingDecision>): string
    requires |ds| < |line.tokens|
  {
    Rendered(line.indentation, DecidedTokens(NodeOf(line, style, ds), Unformatted(line)))
  }

  /** The last token decided, with its spacing. */
  ghost function Placed(line: UnwrappedLine, style: Style, ds: seq<SpacingDecision>): FormattedToken
    requires 0 < |ds| < |line.tokens|
  {
    Decided(NodeOf(line, style, ds), Undecorated(line.tokens[|ds|]))
  }

  lemma {:induction false} KnownSpaces(line: UnwrappedLine, style: Style, ds: seq<SpacingDecision>)
    requires Legal(line, ds) && PreservedKnown(line)
    ensures SpacesKnown(line, NodeOf(line, style, ds))
    decreases |ds|
  {
    if ds != [] {
      hide ColumnAfter, CostOf, OpenGroupBalance, CloseGroupBalance;
      KnownSpaces(line, style, ds[..|ds| - 1]);
    }
  }

  /** The column of a state is where its text ends. */
  lemma ColumnOf(line: UnwrappedLine, style: Style, ds: seq<SpacingDecision>)
    requires Legal(line, ds) && PreservedKnown(line)
    ensures NodeOf(line, style, ds).column == LastLineLength(TextOf(line, style, ds))
  {
    KnownSpaces(line, style, ds);
    ReachableIsPath(line, style, ds);
    ColumnIsRendered(line, style, NodeOf(line, style, ds));
  }

  /** The text grows by the spacing and the text of one token. */
  lemma TextGrows(line: UnwrappedLine, style: Style, ds: seq<SpacingDecision>)
    requires Legal(line, ds) && ds != []
    ensures var init := ds[..|ds| - 1];
            TextOf(line, style, ds) == TextOf(line, style, init) + TokenText(Placed(line, style, ds))
  {
    hide ColumnAfter, CostOf, OpenGroupBalance, CloseGroupBalance, Decided;
    var init, all := ds[..|ds| - 1], Unformatted(line);
    ReachableIsPath(line, style, ds);
    ReachableIsPath(line, style, init);
    DecidedTokensLength(line, style, NodeOf(line, style, ds), all);
    DecidedTokensLength(line, style, NodeOf(line, style, init), all);
    var r, before := DecidedTokens(NodeOf(line, style, ds), all), DecidedTokens(NodeOf(line, style, init), all);
    assert r == before + [Placed(line, style, ds)];
    assert r[..|r| - 1] == before;
  }

  /** The spacing that is printed is one that the token allows: a line break if it must wrap, its own spaces if it
      must be appended, its original spacing if that is preserved, and otherwise either of the first two. */
  lemma SpacingIsAllowed(line: UnwrappedLine, style: Style, ds: seq<SpacingDecision>)
    requires Legal(line, ds) && PreservedKnown(line) && ds != []
    ensures var t, token := Placed(line, style, ds), line.tokens[|ds|];
            var wrapped, appended := SpaceText(t) == "\n" + Spacer(t.spaces), SpaceText(t) == Spacer(token.spacesRequired);
            && t.text == token.text
            && match token.breakDecision
               case MustWrap => wrapped
               case MustAppend => appended
               case Preserve => SpaceText(t) == token.originalSpaces.value
               case _ => wrapped || appended
  {
    hide OpenGroupBalance, CloseGroupBalance, CostOf;
    NodeIsNext(line, style, ds);
  }

  /** Of an undecided token both are tried. */
  lemma BothAreLegal(line: UnwrappedLine, ds: seq<SpacingDecision>)
    requires Legal(line, ds) && |ds| + 1 < |line.tokens|
    ensures line.tokens[|ds| + 1].breakDecision == Undecided ==> Legal(line, ds + [KAppend]) && Legal(line, ds + [KWrap])
    ensures exists choice :: Legal(line, ds + [choice])
  {
    var token := line.tokens[|ds| + 1];
    var choice := match token.breakDecision case Preserve => KPreserve case MustWrap => KWrap case _ => KAppend;
    assert Legal(line, ds + [choice]);
  }

  // ----- what the decisions cost

  /** Where the line that the last token was put on ends before that token's first line break. */
  ghost function FirstLineEnd(line: UnwrappedLine, style: Style, ds: seq<SpacingDecision>): int
    requires 0 < |ds| < |line.tokens|
  {
    var t := Placed(line, style, ds);
    LastLineLength(TextOf(line, style, ds[..|ds| - 1]) + SpaceText(t) + t.text[..FirstNewline(t.text)])
  }

  /** A wrap costs its break penalty; an append costs, if its line passes the limit, the penalty for that and one
      for every column beyond; preserved spacing costs nothing. */
  ghost function Price(line: UnwrappedLine, style: Style, ds: seq<SpacingDecision>): int
    requires 0 < |ds| < |line.tokens|
  {
    match ds[|ds| - 1]
    case KWrap => line.tokens[|ds|].breakPenalty
    case KAppend =>
      var n := FirstLineEnd(line, style, ds);
      if n > style.columnLimit then style.overColumnLimitPenalty + n - style.columnLimit else 0
    case _ => 0
  }

  ghost function TotalPrice(line: UnwrappedLine, style: Style, ds: seq<SpacingDecision>): int
    requires |ds| < |line.tokens|
  {
    if ds == [] then 0 else TotalPrice(line, style, ds[..|ds| - 1]) + Price(line, style, ds)
  }

  lemma FirstNewlineMeans(s: string)
    ensures IsMultiline(s) <==> FirstNewline(s) < |s|
    ensures !IsMultiline(s[..FirstNewline(s)])
  {
    var t := s[..FirstNewline(s)];
    LastNewlineIs(t, -1);
    if !IsMultiline(s) {
      assert FirstNewline(s) == |s|;
    } else {
      assert s[LastNewline(s)] == '\n';
    }
  }

  /** Appending text without line breaks moves the end of the line. */
  lemma AppendedEnd(before: string, n: nat, text: string)
    requires !IsMultiline(text)
    ensures LastLineLength(before + Spacer(n) + text) == LastLineLength(before) + n + |text|
  {
    LastLineConcat(before + Spacer(n), text);
    LastLineConcat(before, Spacer(n));
    SpacerColumn(LastLineLength(before), n);
  }

  lemma AppendCost(line: UnwrappedLine, style: Style, ds: seq<SpacingDecision>)
    requires Legal(line, ds) && PreservedKnown(line) && ds != [] && ds[|ds| - 1] == KAppend
    ensures var parent, n := NodeOf(line, style, ds[..|ds| - 1]), FirstLineEnd(line, style, ds);
            NodeOf(line, style, ds).cost
            == parent.cost + if n > style.columnLimit then style.overColumnLimitPenalty + n - style.columnLimit else 0
  {
    hide OpenGroupBalance, CloseGroupBalance, DecidedTokens, Rendered;
    var init, token := ds[..|ds| - 1], line.tokens[|ds|];
    ColumnOf(line, style, init);
    FirstNewlineMeans(token.text);
    AppendedEnd(TextOf(line, style, init), token.spacesRequired, token.text[..FirstNewline(token.text)]);
    assert Placed(line, style, ds).spaces == token.spacesRequired;
  }

  /** The cost of a state is the sum of the prices of its decisions, as they show in the rendered text. */
  lemma {:induction false} CostIsPrice(line: UnwrappedLine, style: Style, ds: seq<SpacingDecision>)
    requires Legal(line, ds) && PreservedKnown(line)
    ensures NodeOf(line, style, ds).cost == TotalPrice(line, style, ds)
    decreases |ds|
  {
    if ds != [] {
      CostIsPrice(line, style, ds[..|ds| - 1]);
      if ds[|ds| - 1] == KAppend {
        hide CostOf, ColumnAfter, OpenGroupBalance, CloseGroupBalance, Next;
        AppendCost(line, style, ds);
      } else {
        hide ColumnAfter, OpenGroupBalance, CloseGroupBalance;
      }
    }
  }

  /** A state that the search returns as cheapest has decisions whose price on the page no others undercut. */
  lemma CheapestOnThePage(line: UnwrappedLine, style: Style, node: StateNode) returns (ds: seq<SpacingDecision>)
    requires Reachable(line, style, node) && Done(line, node) && IsCheapest(line, style, node) && PreservedKnown(line)
    ensures Complete(line, ds) && node == NodeOf(line, style, ds)
    ensures forall other :: Complete(line, other) ==> TotalPrice(line, style, ds) <= TotalPrice(line, style, other)
  {
    hide NodeOf, TotalPrice;
    ds :| Legal(line, ds) && node == NodeOf(line, style, ds);
    CostIsPrice(line, style, ds);
    forall other | Complete(line, other) ensures TotalPrice(line, style, ds) <= TotalPrice(line, style, other) {
      CostIsPrice(line, style, other);
    }
  }

  /** Finishing greedily appends the next token exactly if it need not wrap and the line with it, as it would be
      printed, stays within the limit; otherwise it wraps. */
  lemma GreedyOnThePage(line: UnwrappedLine, style: Style, node: StateNode)
    requires IsPath(line, style, node) && SpacesKnown(line, node) && !Done(line, node) && 0 < node.depth
    ensures var token, text := line.tokens[node.depth], Rendered(line.indentation, DecidedTokens(node, Unformatted(line)));
            var fits := LastLineLength(text + Spacer(token.spacesRequired) + token.text) <= style.columnLimit;
            GreedyNext(line, style, node)
            == Next(line, style, node, if token.breakDecision != MustWrap && fits then KAppend else KWrap)
  {
    var token, text := line.tokens[node.depth], Rendered(line.indentation, DecidedTokens(node, Unformatted(line)));
    ColumnIsRendered(line, style, node);
    PlacedColumn(text, Spacer(token.spacesRequired), token.text);
    SpacerColumn(node.column, token.spacesRequired);
    assert text + Spacer(token.spacesRequired) + token.text == text + (Spacer(token.spacesRequired) + token.text);
    hide OpenGroupBalance, CloseGroupBalance, CostOf, Rendered, DecidedTokens;
  }

  // ----- where a wrapped token lands

  /** Opening tokens whose groups are open, innermost last, after one more token: the group of the token before
      it opens unless spacing is preserved. */
  function Opened(line: UnwrappedLine, groups: seq<nat>, i: nat, choice: SpacingDecision): seq<nat>
    requires 0 < i < |line.tokens|
  {
    if line.tokens[i - 1].balancing == Open && (choice == KAppend || choice == KWrap) then groups + [i - 1] else groups
  }

  function InnerClosed(groups: seq<nat>): seq<nat> { if groups == [] then [] else groups[..|groups| - 1] }

  /** The groups that are open behind the last token decided. A token that closes a group does so after the group
      of the token before it has opened if it is appended, and before that if it is wrapped. */
  function OpenGroups(line: UnwrappedLine, ds: seq<SpacingDecision>): seq<nat>
    requires |ds| < |line.tokens|
  {
    if ds == [] then [] else
      var i, choice, before := |ds|, ds[|ds| - 1], OpenGroups(line, ds[..|ds| - 1]);
      if line.tokens[i].balancing != Close then Opened(line, before, i, choice)
      else if choice == KWrap then Opened(line, InnerClosed(before), i, choice)
      else InnerClosed(Opened(line, before, i, choice))
  }

  /** The groups that decide where the last token lands if it is wrapped: its own is closed, and the group of the
      token before it counts only if that token was wrapped too. */
  ghost function GroupsAround(line: UnwrappedLine, style: Style, ds: seq<SpacingDecision>): seq<nat>
    requires 0 < |ds| < |line.tokens|
  {
    var i, init := |ds|, ds[..|ds| - 1];
    var before := OpenGroups(line, init);
    var closed := if line.tokens[i].balancing == Close then InnerClosed(before) else before;
    if NodeOf(line, style, init).choice == KWrap then Opened(line, closed, i, KWrap) else closed
  }

  /** The column of a group: where the text ends behind its opening if the token after that is appended, and a
      wrap further than the group around it if that token is wrapped. */
  ghost function GroupColumn(line: UnwrappedLine, style: Style, ds: seq<SpacingDecision>, g: nat): int
    requires |ds| < |line.tokens|
    decreases |ds|, 0
  {
    if g >= |ds| then 0
    else if ds[g] == KAppend then LastLineLength(TextOf(line, style, ds[..g]))
    else Innermost(line, style, ds[..g], OpenGroups(line, ds[..g])) + style.wrapSpaces
  }

  /** The column of the innermost of some groups, or that of the line if none is open. */
  ghost function Innermost(line: UnwrappedLine, style: Style, ds: seq<SpacingDecision>, groups: seq<nat>): int
    requires |ds| < |line.tokens|
    decreases |ds|, 1
  {
    if groups == [] then line.indentation + style.wrapSpaces else GroupColumn(line, style, ds, groups[|groups| - 1])
  }

  /** The stack that belongs to some groups. */
  ghost function StackOf(line: UnwrappedLine, style: Style, ds: seq<SpacingDecision>, groups: seq<nat>): (stack: seq<int>)
    requires |ds| < |line.tokens|
    ensures |stack| == |groups| + 1 && Top(stack) == Innermost(line, style, ds, groups)
  {
    [line.indentation + style.wrapSpaces]
    + seq(|groups|, k requires 0 <= k < |groups| => GroupColumn(line, style, ds, groups[k]))
  }

  predicate AllBefore(groups: seq<nat>, n: nat) { forall k :: 0 <= k < |groups| ==> groups[k] < n }

  lemma {:induction false} GroupsBefore(line: UnwrappedLine, ds: seq<SpacingDecision>)
    requires |ds| < |line.tokens|
    ensures AllBefore(OpenGroups(line, ds), |ds|)
  {
    if ds != [] {
      GroupsBefore(line, ds[..|ds| - 1]);
    }
  }

  /** Later decisions do not move a group. */
  lemma StackKept(line: UnwrappedLine, style: Style, ds: seq<SpacingDecision>, groups: seq<nat>)
    requires ds != [] && |ds| < |line.tokens| && AllBefore(groups, |ds| - 1)
    ensures StackOf(line, style, ds, groups) == StackOf(line, style, ds[..|ds| - 1], groups)
  {
    var init := ds[..|ds| - 1];
    forall k | 0 <= k < |groups| ensures GroupColumn(line, style, ds, groups[k]) == GroupColumn(line, style, init, groups[k]) {
      assert ds[..groups[k]] == init[..groups[k]];
    }
  }

  lemma StackClosed(line: UnwrappedLine, style: Style, ds: seq<SpacingDecision>, groups: seq<nat>)
    requires |ds| < |line.tokens|
    ensures CloseGroupBalance(StackOf(line, style, ds, groups)) == StackOf(line, style, ds, InnerClosed(groups))
  {
    hide GroupColumn;
  }

  lemma StackOpened(line: UnwrappedLine, style: Style, ds: seq<SpacingDecision>, groups: seq<nat>)
    requires Legal(line, ds) && PreservedKnown(line) && ds != []
    requires var init := ds[..|ds| - 1];
             NodeOf(line, style, init).wrapColumns == StackOf(line, style, init, OpenGroups(line, init))
    ensures var i := |ds|;
            OpenGroupBalance(style, NodeOf(line, style, ds[..i - 1]), line.tokens[i - 1], ds[i - 1], StackOf(line, style, ds, groups))
            == StackOf(line, style, ds, Opened(line, groups, i, ds[i - 1]))
  {
    hide TextOf, NodeOf;
    var i, init := |ds|, ds[..|ds| - 1];
    ColumnOf(line, style, init);
    assert GroupColumn(line, style, ds, i - 1)
        == if ds[i - 1] == KAppend then LastLineLength(TextOf(line, style, init))
           else Innermost(line, style, init, OpenGroups(line, init)) + style.wrapSpaces;
  }

  /** The wrap columns of a state are those of the groups that are open, above that of the line. */
  lemma {:induction false} StackIsGroups(line: UnwrappedLine, style: Style, ds: seq<SpacingDecision>)
    requires Legal(line, ds) && PreservedKnown(line)
    ensures NodeOf(line, style, ds).wrapColumns == StackOf(line, style, ds, OpenGroups(line, ds))
    ensures ds != [] && ds[|ds| - 1] == KWrap ==>
              Placed(line, style, ds).spaces == Innermost(line, style, ds, GroupsAround(line, style, ds))
    decreases |ds|
  {
    if ds != [] {
      hide NodeOf, StackOf, OpenGroupBalance, CloseGroupBalance, Opened, InnerClosed, Innermost, Legal, GroupsAround, PreservedKnown,
        AllBefore, Placed, ColumnAfter, Next;
      var i, init, choice := |ds|, ds[..|ds| - 1], ds[|ds| - 1];
      var parent, token, previous := NodeOf(line, style, init), line.tokens[i], line.tokens[i - 1];
      LegalInit(line, ds);
      StackIsGroups(line, style, init);
      var before := OpenGroups(line, init);
      GroupsBefore(line, init);
      StackKept(line, style, ds, before);
      StackClosed(line, style, ds, before);
      var closeFirst, openFirst := choice == KWrap && token.balancing == Close, choice == KWrap && parent.choice == KWrap;
      var g1 := if closeFirst then InnerClosed(before) else before;
      var g2 := if openFirst then Opened(line, g1, i, choice) else g1;
      var g3 := Opened(line, g1, i, choice);
      StackOpened(line, style, ds, g1);
      StackClosed(line, style, ds, g3);
      var g4 := if !closeFirst && token.balancing == Close then InnerClosed(g3) else g3;
      NodeIsNext(line, style, ds);
      NextStacks(line, style, parent, choice, StackOf(line, style, ds, g1), StackOf(line, style, ds, g2),
                 StackOf(line, style, ds, g3), StackOf(line, style, ds, g4));
      assert OpenGroups(line, ds) == g4;
      if choice == KWrap {
        assert GroupsAround(line, style, ds) == g2 by { AroundIs(line, style, ds); }
        LandsAtTop(line, style, ds, StackOf(line, style, ds, g2));
      }
    }
  }

  lemma LegalInit(line: UnwrappedLine, ds: seq<SpacingDecision>)
    requires Legal(line, ds) && ds != []
    ensures Legal(line, ds[..|ds| - 1]) && |ds| < |line.tokens|
  {
  }

  lemma NodeIsNext(line: UnwrappedLine, style: Style, ds: seq<SpacingDecision>)
    requires 0 < |ds| < |line.tokens|
    ensures NodeOf(line, style, ds) == Next(line, style, NodeOf(line, style, ds[..|ds| - 1]), ds[|ds| - 1])
  {
  }

  lemma AroundIs(line: UnwrappedLine, style: Style, ds: seq<SpacingDecision>)
    requires 0 < |ds| < |line.tokens|
    ensures var i, init := |ds|, ds[..|ds| - 1];
            var before := OpenGroups(line, init);
            var closed := if line.tokens[i].balancing == Close then InnerClosed(before) else before;
            GroupsAround(line, style, ds)
            == if NodeOf(line, style, init).choice == KWrap then Opened(line, closed, i, KWrap) else closed
  {
  }

  /** The stacks that a state goes through. */
  lemma NextStacks(
      line: UnwrappedLine, style: Style, parent: StateNode, choice: SpacingDecision,
      s1: seq<int>, s2: seq<int>, s3: seq<int>, s4: seq<int>)
    requires 0 < parent.depth < |line.tokens|
    requires var token, previous := line.tokens[parent.depth], line.tokens[parent.depth - 1];
             var closeFirst, openFirst := choice == KWrap && token.balancing == Close, choice == KWrap && parent.choice == KWrap;
             && s1 == (if closeFirst then CloseGroupBalance(parent.wrapColumns) else parent.wrapColumns)
             && s3 == OpenGroupBalance(style, parent, previous, choice, s1) && s2 == (if openFirst then s3 else s1)
             && s4 == if !closeFirst && token.balancing == Close then CloseGroupBalance(s3) else s3
    ensures var node := Next(line, style, parent, choice);
            && node.wrapColumns == s4
            && (node.column, node.multilineSpacesBefore)
               == (ColumnAfter(parent, line.tokens[parent.depth], choice, s2).0, ColumnAfter(parent, line.tokens[parent.depth], choice, s2).2)
  {
    hide CloseGroupBalance, OpenGroupBalance, ColumnAfter, CostOf;
  }

  /** A wrapped token is printed at the top of the stack. */
  lemma LandsAtTop(line: UnwrappedLine, style: Style, ds: seq<SpacingDecision>, stack: seq<int>)
    requires Legal(line, ds) && ds != [] && ds[|ds| - 1] == KWrap
    requires var parent, node := NodeOf(line, style, ds[..|ds| - 1]), NodeOf(line, style, ds);
             var after := ColumnAfter(parent, line.tokens[|ds|], KWrap, stack);
             (node.column, node.multilineSpacesBefore) == (after.0, after.2)
    ensures Placed(line, style, ds).spaces == Top(stack)
  {
    var node := NodeOf(line, style, ds);
    ReachableIsPath(line, style, ds);
    WrapSpacing(line, style, node);
    assert node.choice == KWrap by { NodeIsNext(line, style, ds); }
    hide NodeOf, IsPath;
  }
}

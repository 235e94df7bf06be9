/** States of the line-wrap search (verible/common/formatting/state-node.cc): one spacing
    decision per token, with the column, cost and wrap positions it leads to. */
module StateNodes {
  import Seqs

  datatype SpacingOptions = Undecided | MustAppend | MustWrap | AppendAligned | Preserve

  datatype SpacingDecision = KAppend | KWrap | KAlign | KPreserve

  datatype GroupBalancing = NoGroup | Open | Close

  datatype Option<T> = None | Some(value: T)

  /** originalSpaces is the text between the previous token and this one, if it is known. */
  datatype PreFormatToken = PreFormatToken(
    text: string, spacesRequired: nat, breakPenalty: int, breakDecision: SpacingOptions,
    originalSpaces: Option<string>, balancing: GroupBalancing)

  datatype Style = Style(wrapSpaces: nat, columnLimit: int, overColumnLimitPenalty: int)

  datatype UnwrappedLine = UnwrappedLine(indentation: nat, tokens: seq<PreFormatToken>)

  /** depth is the number of tokens decided so far; the wrap columns are a stack, top last. */
  datatype StateNode = StateNode(
    prev: Option<StateNode>, depth: nat, choice: SpacingDecision, column: int, cost: int,
    multilineSpacesBefore: int, wrapColumns: seq<int>)

  // ----- positions in text

  /** The position of the last newline, or -1. */
  function LastNewline(s: string): (i: int)
    ensures -1 <= i < |s|
    ensures 0 <= i ==> s[i] == '\n'
    ensures forall j :: i < j < |s| ==> s[j] != '\n'
  {
    if s == [] then -1 else if s[|s| - 1] == '\n' then |s| - 1 else LastNewline(s[..|s| - 1])
  }

  /** The position of the first newline, or the length of the text. */
  function FirstNewline(s: string): (i: int)
    ensures 0 <= i <= |s| && (i < |s| ==> s[i] == '\n')
    ensures forall j :: 0 <= j < i ==> s[j] != '\n'
  {
    if s == [] || s[0] == '\n' then 0 else 1 + FirstNewline(s[1..])
  }

  /** The length of what follows the last newline. */
  function LastLineLength(s: string): (n: int)
    ensures 0 <= n <= |s|
  {
    |s| - LastNewline(s) - 1
  }

  function IsMultiline(s: string): bool { LastNewline(s) != -1 }

  /** AdvancingTextNewColumnPosition */
  function AdvancedColumn(column: int, text: string): int {
    if IsMultiline(text) then LastLineLength(text) else column + |text|
  }

  // ----- the steps of the constructors

  function Top(stack: seq<int>): int {
    if stack == [] then 0 else stack[|stack| - 1]
  }

  function CloseGroupBalance(stack: seq<int>): seq<int> {
    if |stack| > 1 then stack[..|stack| - 1] else stack
  }

  /** The wrap column of a group is set when the token after its opening is placed. */
  function OpenGroupBalance(
      style: Style, parent: StateNode, previous: PreFormatToken, choice: SpacingDecision, stack: seq<int>): seq<int> {
    if previous.balancing != Open then stack
    else
      match choice
      case KWrap => stack + [Top(parent.wrapColumns) + style.wrapSpaces]
      case KAppend => stack + [parent.column]
      case _ => stack
  }

  /** UpdateColumnPosition for a token with a parent state: the new column, the column to
      penalize, and the recorded spaces before a wrapped multi-line token. */
  function ColumnAfter(parent: StateNode, token: PreFormatToken, choice: SpacingDecision, stack: seq<int>)
    : (r: (int, int, int))
  {
    if IsMultiline(token.text) then
      var column := LastLineLength(token.text);
      if choice == KWrap then (column, column, Top(stack))
      else (column, parent.column + token.spacesRequired + FirstNewline(token.text), -1)
    else
      var column := match choice
        case KWrap => Top(stack) + |token.text|
        case KPreserve =>
          AdvancedColumn(parent.column, if token.originalSpaces.Some? then token.originalSpaces.value else "") + |token.text|
        case _ => parent.column + token.spacesRequired + |token.text|;
      (column, column, -1)
  }

  /** UpdateCumulativeCost */
  function CostOf(style: Style, token: PreFormatToken, choice: SpacingDecision, columnForPenalty: int): int {
    match choice
    case KWrap => token.breakPenalty
    case KAppend =>
      if columnForPenalty > style.columnLimit
      then style.overColumnLimitPenalty + columnForPenalty - style.columnLimit else 0
    case _ => 0
  }

  /** The root state: the first token, on a line of its own. */
  function Root(line: UnwrappedLine, style: Style): StateNode
    requires line.tokens != []
  {
    var first := line.tokens[0];
    var choice := if first.breakDecision == Preserve then KPreserve else KAppend;
    var column := if IsMultiline(first.text) then LastLineLength(first.text)
                  else if choice == KPreserve then |first.text| else line.indentation + |first.text|;
    StateNode(None, 1, choice, column, 0, -1, [line.indentation + style.wrapSpaces])
  }

  predicate Done(line: UnwrappedLine, node: StateNode) { node.depth >= |line.tokens| }

  /** The state after one more decision. */
  function Next(line: UnwrappedLine, style: Style, parent: StateNode, choice: SpacingDecision): StateNode
    requires 0 < parent.depth < |line.tokens|
  {
    var token, previous := line.tokens[parent.depth], line.tokens[parent.depth - 1];
    var closeFirst := choice == KWrap && token.balancing == Close;
    var openFirst := choice == KWrap && parent.choice == KWrap;
    var stack0 := parent.wrapColumns;
    var stack1 := if closeFirst then CloseGroupBalance(stack0) else stack0;
    var stack2 := if openFirst then OpenGroupBalance(style, parent, previous, choice, stack1) else stack1;
    var (column, columnForPenalty, spacesBefore) := ColumnAfter(parent, token, choice, stack2);
    var cost := parent.cost + CostOf(style, token, choice, columnForPenalty);
    var stack3 := if openFirst then stack2 else OpenGroupBalance(style, parent, previous, choice, stack2);
    var stack4 := if !closeFirst && token.balancing == Close then CloseGroupBalance(stack3) else stack3;
    StateNode(Some(parent), parent.depth + 1, choice, column, cost, spacesBefore, stack4)
  }

  /** node was reached by some sequence of decisions, kAlign never being one. */
  ghost predicate IsPath(line: UnwrappedLine, style: Style, node: StateNode)
    decreases node
  {
    && line.tokens != []
    && match node.prev
       case None => node == Root(line, style)
       case Some(parent) =>
         && 0 < parent.depth < |line.tokens|
         && node.choice != KAlign
         && node == Next(line, style, parent, node.choice)
         && IsPath(line, style, parent)
  }

  /** A stack is never empty and holds no negative column. */
  ghost predicate StackOk(stack: seq<int>) {
    stack != [] && forall i :: 0 <= i < |stack| ==> 0 <= stack[i]
  }

  lemma StacksStayOk(style: Style, parent: StateNode, previous: PreFormatToken, choice: SpacingDecision, stack: seq<int>)
    requires StackOk(stack)
    ensures StackOk(CloseGroupBalance(stack))
    ensures StackOk(parent.wrapColumns) && 0 <= parent.column ==> StackOk(OpenGroupBalance(style, parent, previous, choice, stack))
  {
  }

  /** One decision keeps the stack and the column in order. */
  lemma NextInvariant(line: UnwrappedLine, style: Style, parent: StateNode, choice: SpacingDecision)
    requires 0 < parent.depth < |line.tokens| && StackOk(parent.wrapColumns) && 0 <= parent.column
    ensures StackOk(Next(line, style, parent, choice).wrapColumns) && 0 <= Next(line, style, parent, choice).column
  {
    var token, previous := line.tokens[parent.depth], line.tokens[parent.depth - 1];
    forall stack | StackOk(stack)
      ensures StackOk(CloseGroupBalance(stack)) && StackOk(OpenGroupBalance(style, parent, previous, choice, stack))
    {
      StacksStayOk(style, parent, previous, choice, stack);
    }
    forall stack | StackOk(stack) ensures 0 <= ColumnAfter(parent, token, choice, stack).0 {
      ColumnNotNegative(parent, token, choice, stack);
    }
    hide CloseGroupBalance, OpenGroupBalance, ColumnAfter, StackOk, CostOf;
  }

  lemma ColumnNotNegative(parent: StateNode, token: PreFormatToken, choice: SpacingDecision, stack: seq<int>)
    requires StackOk(stack) && 0 <= parent.column
    ensures 0 <= ColumnAfter(parent, token, choice, stack).0
  {
  }

  lemma {:induction false} PathInvariant(line: UnwrappedLine, style: Style, node: StateNode)
    requires IsPath(line, style, node)
    ensures 1 <= node.depth <= |line.tokens| && 0 <= node.column && StackOk(node.wrapColumns)
    ensures node.prev.None? <==> node.depth == 1
    decreases node
  {
    if node.prev.Some? {
      hide StackOk, CloseGroupBalance, OpenGroupBalance, ColumnAfter;
      PathInvariant(line, style, node.prev.value);
      NextInvariant(line, style, node.prev.value, node.choice);
    } else {
      hide IsMultiline, LastLineLength;
    }
  }

  // ----- rendering

  /** A token whose spacing is decided. */
  datatype FormattedToken = FormattedToken(
    text: string, action: SpacingDecision, spaces: int, originalSpaces: Option<string>)

  function ConvertSpacing(o: SpacingOptions): SpacingDecision {
    match o
    case MustWrap => KWrap
    case MustAppend => KAppend
    case AppendAligned => KAlign
    case _ => KPreserve
  }

  function Undecorated(t: PreFormatToken): FormattedToken {
    FormattedToken(t.text, ConvertSpacing(t.breakDecision), t.spacesRequired, t.originalSpaces)
  }

  function Spacer(n: int): (s: string)
    ensures |s| == if n < 0 then 0 else n
    ensures forall i :: 0 <= i < |s| ==> s[i] == ' '
  {
    seq(if n < 0 then 0 else n, _ => ' ')
  }

  /** The spacing printed before a token. */
  function SpaceText(t: FormattedToken): string {
    match t.action
    case KPreserve => if t.originalSpaces.Some? then t.originalSpaces.value else Spacer(t.spaces)
    case KWrap => "\n" + Spacer(t.spaces)
    case _ => Spacer(t.spaces)
  }

  /** FormattedToken::FormattedText */
  function TokenText(t: FormattedToken): string {
    SpaceText(t) + t.text
  }

  /** FormattedExcerpt::FormattedText with indentation, as a simple recursion. */
  function Rendered(indentation: nat, tokens: seq<FormattedToken>): string {
    if tokens == [] then ""
    else if |tokens| == 1 then
      (if tokens[0].action != KPreserve then Spacer(indentation) else "")
      + (if tokens[0].action == KAlign then Spacer(tokens[0].spaces) else "") + tokens[0].text
    else Rendered(indentation, tokens[..|tokens| - 1]) + TokenText(tokens[|tokens| - 1])
  }

  /** The decision of a state applied to its token. */
  function Decided(node: StateNode, t: FormattedToken): FormattedToken {
    var t' := t.(action := node.choice);
    if node.multilineSpacesBefore >= 0 then t'.(spaces := node.multilineSpacesBefore)
    else if node.choice == KWrap then t'.(spaces := node.column - |t.text|)
    else t'
  }

  /** The tokens decided by a state and its ancestors, with those decisions applied. */
  function DecidedTokens(node: StateNode, tokens: seq<FormattedToken>): (r: seq<FormattedToken>)
    decreases node
  {
    if !(0 < node.depth <= |tokens|) then []
    else (if node.prev.Some? then DecidedTokens(node.prev.value, tokens) else [])
         + [Decided(node, tokens[node.depth - 1])]
  }

  lemma {:induction false} DecidedTokensLength(line: UnwrappedLine, style: Style, node: StateNode, tokens: seq<FormattedToken>)
    requires IsPath(line, style, node) && |tokens| == |line.tokens|
    ensures |DecidedTokens(node, tokens)| == node.depth
    ensures forall i :: 0 <= i < node.depth ==> DecidedTokens(node, tokens)[i].text == tokens[i].text
    decreases node
  {
    PathInvariant(line, style, node);
    if node.prev.Some? {
      DecidedTokensLength(line, style, node.prev.value, tokens);
    }
  }

  /** The tokens of a line before any decision. */
  function Unformatted(line: UnwrappedLine): (r: seq<FormattedToken>)
    ensures |r| == |line.tokens|
  {
    seq(|line.tokens|, i requires 0 <= i < |line.tokens| => Undecorated(line.tokens[i]))
  }

  // ----- the predicted column is the rendered one

  lemma LastNewlineIs(s: string, i: int)
    requires -1 <= i < |s| && (0 <= i ==> s[i] == '\n') && forall j :: i < j < |s| ==> s[j] != '\n'
    ensures LastNewline(s) == i
  {
  }

  lemma LastLineConcat(s: string, t: string)
    ensures LastLineLength(s + t) == AdvancedColumn(LastLineLength(s), t)
  {
    LastNewlineIs(s + t, if IsMultiline(t) then |s| + LastNewline(t) else LastNewline(s));
  }

  /** Every token that keeps its original spacing has one. */
  predicate SpacesKnown(line: UnwrappedLine, node: StateNode)
    decreases node
  {
    && (node.choice == KPreserve && 1 < node.depth <= |line.tokens| ==> line.tokens[node.depth - 1].originalSpaces.Some?)
    && (node.prev.Some? ==> SpacesKnown(line, node.prev.value))
  }

  lemma PlacedColumn(before: string, space: string, text: string)
    ensures LastLineLength(before + (space + text))
         == if IsMultiline(text) then LastLineLength(text) else AdvancedColumn(LastLineLength(before), space) + |text|
  {
    assert before + (space + text) == (before + space) + text;
    LastLineConcat(before + space, text);
    LastLineConcat(before, space);
  }

  lemma SpacerColumn(column: int, n: nat)
    ensures AdvancedColumn(column, Spacer(n)) == column + n
    ensures AdvancedColumn(column, "\n" + Spacer(n)) == n
  {
    LastNewlineIs(Spacer(n), -1);
    LastNewlineIs("\n" + Spacer(n), 0);
  }

  /** A wrap puts the token at a column of the stack, which is not negative. */
  lemma WrapSpacing(line: UnwrappedLine, style: Style, node: StateNode)
    requires IsPath(line, style, node) && node.prev.Some? && node.choice == KWrap
    ensures var text := line.tokens[node.depth - 1].text;
            if IsMultiline(text) then 0 <= node.multilineSpacesBefore
            else node.multilineSpacesBefore == -1 && |text| <= node.column
  {
    hide CostOf, LastNewline, OpenGroupBalance, CloseGroupBalance;
    var parent, token := node.prev.value, line.tokens[node.depth - 1];
    PathInvariant(line, style, parent);
    var previous := line.tokens[parent.depth - 1];
    var closed := if token.balancing == Close then CloseGroupBalance(parent.wrapColumns) else parent.wrapColumns;
    StacksStayOk(style, parent, previous, KWrap, parent.wrapColumns);
    StacksStayOk(style, parent, previous, KWrap, closed);
  }

  /** The column of a state from that of its parent, in terms of the text that is printed. */
  lemma StepColumn(line: UnwrappedLine, style: Style, node: StateNode)
    requires IsPath(line, style, node) && node.prev.Some? && SpacesKnown(line, node)
    ensures var text, t := line.tokens[node.depth - 1].text, Decided(node, Undecorated(line.tokens[node.depth - 1]));
            && t.text == text && 0 <= t.spaces
            && node.column == if IsMultiline(text) then LastLineLength(text)
                              else AdvancedColumn(node.prev.value.column, SpaceText(t)) + |text|
  {
    hide OpenGroupBalance, CloseGroupBalance, CostOf, StackOk;
    var parent, token := node.prev.value, line.tokens[node.depth - 1];
    var t := Decided(node, Undecorated(token));
    PathInvariant(line, style, parent);
    match node.choice
    case KWrap =>
      WrapSpacing(line, style, node);
      SpacerColumn(parent.column, t.spaces);
    case KAppend =>
      SpacerColumn(parent.column, t.spaces);
    case KPreserve =>
  }

  /** One token more: the line it is printed on ends where the state says. */
  lemma TokenColumn(line: UnwrappedLine, style: Style, node: StateNode, before: string)
    requires IsPath(line, style, node) && node.prev.Some? && SpacesKnown(line, node)
    requires LastLineLength(before) == node.prev.value.column
    ensures var t := Decided(node, Undecorated(line.tokens[node.depth - 1]));
            LastLineLength(before + TokenText(t)) == node.column
  {
    var t := Decided(node, Undecorated(line.tokens[node.depth - 1]));
    StepColumn(line, style, node);
    PlacedColumn(before, SpaceText(t), t.text);
  }

  /** The column a state predicts is the length of the last line of what is rendered from it. */
  lemma {:induction false} ColumnIsRendered(line: UnwrappedLine, style: Style, node: StateNode)
    requires IsPath(line, style, node) && SpacesKnown(line, node)
    ensures LastLineLength(Rendered(line.indentation, DecidedTokens(node, Unformatted(line)))) == node.column
    decreases node
  {
    var tokens := Unformatted(line);
    var r := DecidedTokens(node, tokens);
    PathInvariant(line, style, node);
    DecidedTokensLength(line, style, node, tokens);
    match node.prev
    case None =>
      var space := if r[0].action != KPreserve then Spacer(line.indentation) else "";
      assert Rendered(line.indentation, r) == "" + (space + r[0].text);
      SpacerColumn(0, line.indentation);
      PlacedColumn("", space, r[0].text);
    case Some(parent) =>
      ColumnIsRendered(line, style, parent);
      DecidedTokensLength(line, style, parent, tokens);
      assert r[..|r| - 1] == DecidedTokens(parent, tokens);
      TokenColumn(line, style, node, Rendered(line.indentation, DecidedTokens(parent, tokens)));
  }

  /** No decided token has a negative number of spaces before it. */
  lemma {:induction false} SpacingNotNegative(line: UnwrappedLine, style: Style, node: StateNode)
    requires IsPath(line, style, node)
    ensures forall t :: t in DecidedTokens(node, Unformatted(line)) ==> 0 <= t.spaces
    decreases node
  {
    PathInvariant(line, style, node);
    if node.prev.Some? {
      SpacingNotNegative(line, style, node.prev.value);
      if node.choice == KWrap {
        WrapSpacing(line, style, node);
      }
    }
  }

  /** Going one state up the ancestry takes off the last decided token. */
  lemma ParentState(line: UnwrappedLine, style: Style, node: StateNode, tokens: seq<FormattedToken>)
    requires IsPath(line, style, node) && |tokens| == |line.tokens|
    ensures 1 <= node.depth <= |line.tokens| && (node.prev.Some? <==> 1 < node.depth)
    ensures node.prev.Some? ==> IsPath(line, style, node.prev.value) && node.prev.value.depth == node.depth - 1
    ensures DecidedTokens(node, tokens)
         == (if node.prev.Some? then DecidedTokens(node.prev.value, tokens) else []) + [Decided(node, tokens[node.depth - 1])]
  {
    PathInvariant(line, style, node);
  }

  /** A line whose decisions are being bound (FormattedExcerpt). */
  class FormattedExcerpt {
    const indentation: nat
    var tokens: seq<FormattedToken>
    var completedFormatting: bool

    constructor Default()
      ensures tokens == [] && indentation == 0 && completedFormatting
    {
      tokens, indentation, completedFormatting := [], 0, true;
    }

    constructor (line: UnwrappedLine)
      ensures indentation == line.indentation && tokens == Unformatted(line) && completedFormatting
    {
      indentation := line.indentation;
      tokens := Unformatted(line);
      completedFormatting := true;
    }

    method MarkIncomplete()
      modifies this`completedFormatting
      ensures !completedFormatting
    {
      completedFormatting := false;
    }

    /** Applies the decisions along the ancestry of a state, last token first. */
    method ReconstructFormatDecisions(node: StateNode, ghost line: UnwrappedLine, ghost style: Style)
      requires IsPath(line, style, node) && tokens == Unformatted(line)
      modifies this`tokens
      ensures tokens == DecidedTokens(node, Unformatted(line)) + Unformatted(line)[node.depth..]
    {
      hide IsPath, Unformatted, Decided, DecidedTokens;
      var depth := Depth(node, line, style);
      PathInvariant(line, style, node);
      ghost var all := Unformatted(line);
      var iter := Some(node);
      var i := depth;
      while i > 0
        invariant 0 <= i <= depth <= |tokens| == |all|
        invariant iter.Some? <==> 0 < i
        invariant iter.Some? ==> IsPath(line, style, iter.value) && iter.value.depth == i
        invariant DecidedTokens(node, all) == (if iter.Some? then DecidedTokens(iter.value, all) else []) + tokens[i..depth]
        invariant forall j :: 0 <= j < i || depth <= j < |all| ==> tokens[j] == all[j]
      {
        i := i - 1;
        ghost var before := tokens;
        var current := iter.value;
        ParentState(line, style, current, all);
        tokens := tokens[i := Decided(current, tokens[i])];
        Seqs.ReplacedSlice(before, i, Decided(current, all[i]), depth);
        iter := current.prev;
      }
      DecidedTokensLength(line, style, node, all);
      Seqs.Halves(tokens, depth);
      assert tokens[depth..] == all[depth..] && tokens[0..depth] == tokens[..depth];
    }

    /** Prints the excerpt with its indentation. */
    method Render() returns (stream: string)
      ensures stream == Rendered(indentation, tokens)
    {
      stream := "";
      if tokens == [] {
        return;
      }
      if tokens[0].action != KPreserve {
        stream := stream + Spacer(indentation);
      }
      if tokens[0].action == KAlign {
        stream := stream + Spacer(tokens[0].spaces) + tokens[0].text;
      } else {
        stream := stream + tokens[0].text;
      }
      assert stream == Rendered(indentation, tokens[..1]);
      for i := 1 to |tokens|
        invariant stream == Rendered(indentation, tokens[..i])
      {
        assert tokens[..i + 1][..i] == tokens[..i];
        stream := stream + TokenText(tokens[i]);
      }
      assert tokens[..|tokens|] == tokens;
    }
  }

  /** The number of states in the ancestry of a state, itself included. */
  method Depth(node: StateNode, ghost line: UnwrappedLine, ghost style: Style) returns (depth: nat)
    requires IsPath(line, style, node)
    ensures depth == node.depth
  {
    depth := 1;
    var iter := node;
    PathInvariant(line, style, iter);
    while iter.prev.Some?
      invariant IsPath(line, style, iter) && 1 <= iter.depth && depth + iter.depth == node.depth + 1
      invariant iter.prev.None? <==> iter.depth == 1
      decreases iter
    {
      depth := depth + 1;
      iter := iter.prev.value;
      PathInvariant(line, style, iter);
    }
  }
}

/** Moving a leaf partition to its neighbour (verible/common/formatting/token-partition-tree.cc). */
module PartitionSurgery {
  import opened PartitionTree

  // ----- the simple definitions: what an edit does to two neighbouring children

  function FirstLeaf(t: Tree): Line { Leaves(t)[0] }
  function LastLeaf(t: Tree): Line { Leaves(t)[|Leaves(t)| - 1] }

  /** The right edge of a subtree moved to e. */
  function ExtendLast(t: Tree, e: int): Tree {
    var n := |t.children|;
    Tree(t.value.(end := e), if n == 0 then [] else t.children[n - 1 := ExtendLast(t.children[n - 1], e)])
  }

  /** The left edge of a subtree moved to b. */
  function ExtendFirst(t: Tree, b: int): Tree {
    Tree(t.value.(begin := b), if IsLeaf(t) then [] else t.children[0 := ExtendFirst(t.children[0], b)])
  }

  /** The right edge moved to the end of x, with x grouped with the last leaf. */
  function GroupLast(t: Tree, x: Line): Tree {
    var n := |t.children|;
    Tree(t.value.(end := x.end),
         if n == 0 then [Tree(t.value, []), Tree(x, [])] else t.children[n - 1 := GroupLast(t.children[n - 1], x)])
  }

  /** A subtree without its first leaf; a parent left childless stays as an empty leaf. */
  function DropFirst(t: Tree): Tree
    requires !IsLeaf(t)
  {
    Tree(t.value.(begin := FirstLeaf(t).end),
         if IsLeaf(t.children[0]) then t.children[1..] else t.children[0 := DropFirst(t.children[0])])
  }

  /** A subtree without its last leaf. */
  function DropLast(t: Tree): Tree
    requires !IsLeaf(t)
  {
    var n := |t.children| - 1;
    Tree(t.value.(end := LastLeaf(t).begin),
         if IsLeaf(t.children[n]) then t.children[..n] else t.children[n := DropLast(t.children[n])])
  }

  function WithoutFirst(t: Tree): seq<Tree> { if IsLeaf(t) then [] else [DropFirst(t)] }
  function WithoutLast(t: Tree): seq<Tree> { if IsLeaf(t) then [] else [DropLast(t)] }

  /** The first leaf of child j merged into the last leaf of child j - 1. */
  function MergedBack(t: Tree, j: nat): Tree
    requires 0 < j < |t.children|
  {
    var l, r := t.children[j - 1], t.children[j];
    t.(children := t.children[..j - 1] + [ExtendLast(l, FirstLeaf(r).end)] + WithoutFirst(r) + t.children[j + 1..])
  }

  /** The first leaf of child j grouped with the last leaf of child j - 1. */
  function GroupedBack(t: Tree, j: nat): Tree
    requires 0 < j < |t.children|
  {
    var l, r := t.children[j - 1], t.children[j];
    t.(children := t.children[..j - 1] + [GroupLast(l, FirstLeaf(r))] + WithoutFirst(r) + t.children[j + 1..])
  }

  /** The last leaf of child j merged into the first leaf of child j + 1. */
  function MergedForward(t: Tree, j: nat): Tree
    requires j + 1 < |t.children|
  {
    var l, r := t.children[j], t.children[j + 1];
    t.(children := t.children[..j] + WithoutLast(l) + [ExtendFirst(r, LastLeaf(l).begin)] + t.children[j + 2..])
  }

  // ----- the invariants are kept

  lemma LeavesOfChildren(t: Tree)
    requires !IsLeaf(t)
    ensures FirstLeaf(t) == FirstLeaf(t.children[0])
    ensures LastLeaf(t) == LastLeaf(t.children[|t.children| - 1])
  {
    var n := |t.children| - 1;
    LeavesAround(t.children, n);
    assert LeavesOf(t.children[n + 1..]) == [];
  }

  /** The outer leaves reach the ends of the range and lie within it. */
  lemma {:induction false} LeafWithin(t: Tree)
    requires RangesOk(t)
    ensures t.value.begin == FirstLeaf(t).begin <= FirstLeaf(t).end <= t.value.end
    ensures t.value.begin <= LastLeaf(t).begin <= LastLeaf(t).end == t.value.end
  {
    if !IsLeaf(t) {
      hide Leaves, LeavesOf;
      LeavesOfChildren(t);
      LeafWithin(t.children[0]);
      LeafWithin(t.children[|t.children| - 1]);
      BeginsRise(t, |t.children| - 1);
      EndsRise(t, 0);
    }
  }

  lemma {:induction false} BeginsRise(t: Tree, i: nat)
    requires RangesOk(t) && i < |t.children|
    ensures t.value.begin <= t.children[i].value.begin
  {
    if i > 0 {
      BeginsRise(t, i - 1);
      assert RangesOk(t.children[i - 1]);
    }
  }

  lemma {:induction false} EndsRise(t: Tree, i: nat)
    requires RangesOk(t) && i < |t.children|
    ensures t.children[i].value.end <= t.value.end
    decreases |t.children| - i
  {
    if i + 1 < |t.children| {
      EndsRise(t, i + 1);
      assert RangesOk(t.children[i + 1]);
    }
  }

  lemma {:induction false} ExtendLastOk(t: Tree, e: int)
    requires RangesOk(t) && t.value.end <= e
    ensures RangesOk(ExtendLast(t, e))
  {
    if !IsLeaf(t) {
      ExtendLastOk(t.children[|t.children| - 1], e);
    }
  }

  lemma {:induction false} ExtendFirstOk(t: Tree, b: int)
    requires RangesOk(t) && b <= t.value.begin
    ensures RangesOk(ExtendFirst(t, b))
  {
    if !IsLeaf(t) {
      ExtendFirstOk(t.children[0], b);
    }
  }

  lemma {:induction false} GroupLastOk(t: Tree, x: Line)
    requires RangesOk(t) && t.value.end == x.begin <= x.end
    ensures RangesOk(GroupLast(t, x))
  {
    if !IsLeaf(t) {
      GroupLastOk(t.children[|t.children| - 1], x);
    }
  }

  /** A node whose first child starts later. */
  lemma FirstChildShrinks(t: Tree, x: Tree, b: int)
    requires RangesOk(t) && !IsLeaf(t) && RangesOk(x) && x.value.begin == b && x.value.end == t.children[0].value.end
    requires b <= t.value.end
    ensures RangesOk(Tree(t.value.(begin := b), t.children[0 := x]))
  {
  }

  lemma FirstChildGone(t: Tree)
    requires RangesOk(t) && !IsLeaf(t) && t.children[0].value.end <= t.value.end
    ensures RangesOk(Tree(t.value.(begin := t.children[0].value.end), t.children[1..]))
  {
    var cc := t.children[1..];
    forall i | 0 <= i < |cc| ensures cc[i] == t.children[i + 1] && RangesOk(cc[i]) {}
  }

  lemma {:induction false} DropFirstOk(t: Tree)
    requires RangesOk(t) && !IsLeaf(t)
    ensures RangesOk(DropFirst(t)) && DropFirst(t).value == t.value.(begin := FirstLeaf(t).end)
  {
    hide Leaves;
    LeafWithin(t);
    LeavesOfChildren(t);
    var c := t.children[0];
    assert RangesOk(c);
    if IsLeaf(c) {
      hide RangesOk;
      LeavesOfLeaf(c);
      FirstChildGone(t);
    } else {
      DropFirstOk(c);
      hide RangesOk;
      FirstChildShrinks(t, DropFirst(c), FirstLeaf(t).end);
    }
  }

  lemma LeavesOfLeaf(t: Tree)
    requires IsLeaf(t)
    ensures Leaves(t) == [t.value] && FirstLeaf(t) == LastLeaf(t) == t.value
  {
  }

  lemma {:induction false} DropLastOk(t: Tree)
    requires RangesOk(t) && !IsLeaf(t)
    ensures RangesOk(DropLast(t)) && DropLast(t).value == t.value.(end := LastLeaf(t).begin)
  {
    hide Leaves;
    LeafWithin(t);
    LeavesOfChildren(t);
    var n := |t.children| - 1;
    if IsLeaf(t.children[n]) {
      LeavesOfLeaf(t.children[n]);
    } else {
      DropLastOk(t.children[n]);
    }
  }

  /** New children with the right edges keep a node's ranges. */
  lemma ChildrenReplaced(t: Tree, i: nat, n: nat, mid: seq<Tree>)
    requires RangesOk(t) && i + n <= |t.children| && n > 0 && mid != []
    requires forall k :: 0 <= k < |mid| ==> RangesOk(mid[k])
    requires forall k :: 0 < k < |mid| ==> mid[k - 1].value.end == mid[k].value.begin
    requires mid[0].value.begin == t.children[i].value.begin
    requires mid[|mid| - 1].value.end == t.children[i + n - 1].value.end
    ensures RangesOk(t.(children := t.children[..i] + mid + t.children[i + n..]))
  {
    var cc, m := t.children[..i] + mid + t.children[i + n..], |mid|;
    forall k | 0 <= k < |cc| ensures RangesOk(cc[k]) && (k > 0 ==> cc[k - 1].value.end == cc[k].value.begin) {
      if k < i {
        assert cc[k] == t.children[k];
      } else if k < i + m {
        assert cc[k] == mid[k - i];
      } else {
        assert cc[k] == t.children[k - i - m + i + n];
      }
    }
  }

  /** A new child j - 1 that reaches to the end of the first leaf of child j. */
  lemma BackOk(t: Tree, j: nat, l': Tree)
    requires RangesOk(t) && 0 < j < |t.children| && RangesOk(l')
    requires l'.value.begin == t.children[j - 1].value.begin && l'.value.end == FirstLeaf(t.children[j]).end
    ensures RangesOk(t.(children := t.children[..j - 1] + [l'] + WithoutFirst(t.children[j]) + t.children[j + 1..]))
  {
    var r := t.children[j];
    assert RangesOk(r);
    hide RangesOk, Leaves, DropFirst;
    var mid := [l'] + WithoutFirst(r);
    if IsLeaf(r) {
      LeavesOfLeaf(r);
    } else {
      DropFirstOk(r);
    }
    ChildrenReplaced(t, j - 1, 2, mid);
    assert t.children[..j - 1] + mid + t.children[j + 1..]
        == t.children[..j - 1] + [l'] + WithoutFirst(t.children[j]) + t.children[j + 1..];
  }

  /** A new child j + 1 that reaches back to the start of the last leaf of child j. */
  lemma ForwardOk(t: Tree, j: nat, r': Tree)
    requires RangesOk(t) && j + 1 < |t.children| && RangesOk(r')
    requires r'.value.begin == LastLeaf(t.children[j]).begin && r'.value.end == t.children[j + 1].value.end
    ensures RangesOk(t.(children := t.children[..j] + WithoutLast(t.children[j]) + [r'] + t.children[j + 2..]))
  {
    var l := t.children[j];
    assert RangesOk(l);
    hide RangesOk, Leaves, DropLast;
    var mid := WithoutLast(l) + [r'];
    if IsLeaf(l) {
      LeavesOfLeaf(l);
    } else {
      DropLastOk(l);
    }
    ChildrenReplaced(t, j, 2, mid);
    assert t.children[..j] + mid + t.children[j + 2..]
        == t.children[..j] + WithoutLast(t.children[j]) + [r'] + t.children[j + 2..];
  }

  /** Child j and its neighbours, and where its outer leaves lie. */
  lemma ChildOk(t: Tree, j: nat)
    requires RangesOk(t) && j < |t.children|
    ensures var c := t.children[j];
            && RangesOk(c) && c.value.begin == FirstLeaf(c).begin <= FirstLeaf(c).end <= c.value.end
            && c.value.begin <= LastLeaf(c).begin <= c.value.end
            && (j > 0 ==> RangesOk(t.children[j - 1]) && t.children[j - 1].value.end == c.value.begin)
            && (j + 1 < |t.children| ==> RangesOk(t.children[j + 1]) && t.children[j + 1].value.begin == c.value.end)
  {
    LeafWithin(t.children[j]);
    assert j + 1 < |t.children| ==> t.children[j + 1 - 1].value.end == t.children[j + 1].value.begin;
  }

  lemma MergedBackOk(t: Tree, j: nat)
    requires RangesOk(t) && 0 < j < |t.children|
    ensures RangesOk(MergedBack(t, j)) && MergedBack(t, j).value == t.value
  {
    hide RangesOk, Leaves, ExtendLast, DropFirst;
    ChildOk(t, j);
    var l, e := t.children[j - 1], FirstLeaf(t.children[j]).end;
    ExtendLastOk(l, e);
    ExtendLastEdges(l, e);
    BackOk(t, j, ExtendLast(l, e));
  }

  lemma ExtendLastEdges(t: Tree, e: int)
    ensures ExtendLast(t, e).value == t.value.(end := e)
    ensures ExtendFirst(t, e).value == t.value.(begin := e)
  {
  }

  lemma GroupedBackOk(t: Tree, j: nat)
    requires RangesOk(t) && 0 < j < |t.children|
    ensures RangesOk(GroupedBack(t, j)) && GroupedBack(t, j).value == t.value
  {
    hide RangesOk, Leaves, GroupLast, DropFirst;
    ChildOk(t, j);
    var l, x := t.children[j - 1], FirstLeaf(t.children[j]);
    GroupLastOk(l, x);
    GroupLastEdges(l, x);
    BackOk(t, j, GroupLast(l, x));
  }

  lemma GroupLastEdges(t: Tree, x: Line)
    ensures GroupLast(t, x).value == t.value.(end := x.end)
  {
  }

  lemma MergedForwardOk(t: Tree, j: nat)
    requires RangesOk(t) && j + 1 < |t.children|
    ensures RangesOk(MergedForward(t, j)) && MergedForward(t, j).value == t.value
  {
    hide RangesOk, Leaves, ExtendFirst, DropLast;
    ChildOk(t, j);
    var r, b := t.children[j + 1], LastLeaf(t.children[j]).begin;
    ExtendFirstOk(r, b);
    ExtendLastEdges(r, b);
    ForwardOk(t, j, ExtendFirst(r, b));
  }

  // ----- what happens to the leaves

  /** The parent of the first leaf, left as an empty leaf when that was its only child. */
  function EmptiedFirst(t: Tree): seq<Line> {
    if IsLeaf(t) then []
    else if !IsLeaf(t.children[0]) then EmptiedFirst(t.children[0])
    else if |t.children| == 1 then [t.value.(begin := FirstLeaf(t).end)]
    else []
  }

  function EmptiedLast(t: Tree): seq<Line> {
    var n := |t.children| - 1;
    if IsLeaf(t) then []
    else if !IsLeaf(t.children[n]) then EmptiedLast(t.children[n])
    else if n == 0 then [t.value.(end := LastLeaf(t).begin)]
    else []
  }

  /** The leaves of a node whose last child changes. */
  lemma LeavesLastChild(t: Tree, v: Line, x: Tree)
    requires !IsLeaf(t)
    ensures var n := |t.children| - 1;
            && Leaves(t) == LeavesOf(t.children[..n]) + Leaves(t.children[n])
            && Leaves(Tree(v, t.children[n := x])) == LeavesOf(t.children[..n]) + Leaves(x)
  {
    hide LeavesOf;
    var n := |t.children| - 1;
    var u := t.children[n := x];
    LeavesAround(t.children, n);
    LeavesAround(u, n);
    NoLeaves(t.children[n + 1..]);
    NoLeaves(u[n + 1..]);
    assert u[..n] == t.children[..n];
  }

  lemma NoLeaves(ts: seq<Tree>)
    requires ts == []
    ensures LeavesOf(ts) == []
  {
  }

  lemma LeavesFirstChild(t: Tree, v: Line, x: Tree)
    requires !IsLeaf(t)
    ensures Leaves(t) == Leaves(t.children[0]) + LeavesOf(t.children[1..])
    ensures Leaves(Tree(v, t.children[0 := x])) == Leaves(x) + LeavesOf(t.children[1..])
  {
    assert t.children[0 := x][1..] == t.children[1..];
  }

  lemma {:induction false} LeavesExtendLast(t: Tree, e: int)
    ensures Leaves(ExtendLast(t, e)) == Leaves(t)[..|Leaves(t)| - 1] + [LastLeaf(t).(end := e)]
  {
    if IsLeaf(t) {
      LeavesOfLeaf(t);
    } else {
      var c := t.children[|t.children| - 1];
      LeavesExtendLast(c, e);
      var x := ExtendLast(c, e);
      var u := ExtendLast(t, e);
      hide Leaves, ExtendLast, LeavesOf;
      LeavesLastChild(t, t.value.(end := e), x);
      LastOfConcat(LeavesOf(t.children[..|t.children| - 1]), Leaves(c), LastLeaf(c).(end := e));
    }
  }

  lemma LastOfConcat(a: seq<Line>, b: seq<Line>, x: Line)
    requires b != []
    ensures (a + b)[..|a + b| - 1] + [x] == a + (b[..|b| - 1] + [x])
    ensures (a + b)[|a + b| - 1] == b[|b| - 1]
  {
  }

  lemma FrontOfConcat(a: seq<Line>, b: seq<Line>, x: seq<Line>)
    requires b != []
    ensures (a + b)[..|a + b| - 1] + x == a + (b[..|b| - 1] + x)
  {
  }

  lemma {:induction false} LeavesExtendFirst(t: Tree, b: int)
    ensures Leaves(ExtendFirst(t, b)) == [FirstLeaf(t).(begin := b)] + Leaves(t)[1..]
  {
    if IsLeaf(t) {
      LeavesOfLeaf(t);
    } else {
      var c := t.children[0];
      LeavesExtendFirst(c, b);
      var x := ExtendFirst(c, b);
      var u := ExtendFirst(t, b);
      hide Leaves, ExtendFirst, LeavesOf;
      LeavesFirstChild(t, t.value.(begin := b), x);
      FirstOfConcat(Leaves(c), LeavesOf(t.children[1..]), FirstLeaf(c).(begin := b));
    }
  }

  lemma FirstOfConcat(a: seq<Line>, b: seq<Line>, x: Line)
    requires a != []
    ensures [x] + (a + b)[1..] == ([x] + a[1..]) + b && (a + b)[0] == a[0]
    ensures (a + b)[1..] == a[1..] + b
  {
  }

  lemma {:induction false} LeavesGroupLast(t: Tree, x: Line)
    ensures Leaves(GroupLast(t, x)) == Leaves(t) + [x]
  {
    if IsLeaf(t) {
      var u := GroupLast(t, x);
      LeavesOfLeaf(t);
      LeavesAround(u.children, 1);
      assert u.children[..1] == [Tree(t.value, [])];
      LeavesOne(Tree(t.value, []));
      LeavesOfLeaf(u.children[1]);
      NoLeaves(u.children[2..]);
    } else {
      var c := t.children[|t.children| - 1];
      LeavesGroupLast(c, x);
      var y := GroupLast(c, x);
      var u := GroupLast(t, x);
      hide Leaves, GroupLast, LeavesOf;
      LeavesLastChild(t, t.value.(end := x.end), y);
    }
  }

  lemma {:induction false} LeavesDropFirst(t: Tree)
    requires !IsLeaf(t)
    ensures Leaves(DropFirst(t)) == EmptiedFirst(t) + Leaves(t)[1..]
  {
    var c := t.children[0];
    LeavesFirstChild(t, t.value, c);
    if IsLeaf(c) {
      LeavesOfLeaf(c);
    } else {
      LeavesDropFirst(c);
      var x := DropFirst(c);
      var u := DropFirst(t);
      assert EmptiedFirst(t) == EmptiedFirst(c);
      hide Leaves, DropFirst, LeavesOf, EmptiedFirst;
      LeavesFirstChild(t, t.value.(begin := FirstLeaf(t).end), x);
      FirstOfConcat(Leaves(c), LeavesOf(t.children[1..]), FirstLeaf(c));
    }
  }

  lemma LeavesLastLeaf(t: Tree)
    requires !IsLeaf(t) && IsLeaf(t.children[|t.children| - 1])
    ensures Leaves(DropLast(t)) == LeavesOf(t.children[..|t.children| - 1]) + EmptiedLast(t)
  {
    var n := |t.children| - 1;
    if n == 0 {
      LeavesOfLeaf(DropLast(t));
      NoLeaves(t.children[..n]);
    } else {
      LeavesInner(DropLast(t));
    }
  }

  lemma {:induction false} LeavesDropLast(t: Tree)
    requires !IsLeaf(t)
    ensures Leaves(DropLast(t)) == Leaves(t)[..|Leaves(t)| - 1] + EmptiedLast(t)
  {
    var n := |t.children| - 1;
    var c := t.children[n];
    LeavesLastChild(t, t.value, c);
    if IsLeaf(c) {
      hide LeavesOf, DropLast, EmptiedLast;
      LeavesLastLeaf(t);
      LeavesOfLeaf(c);
      FrontOfConcat(LeavesOf(t.children[..n]), Leaves(c), EmptiedLast(t));
    } else {
      LeavesDropLast(c);
      var x := DropLast(c);
      var u := DropLast(t);
      assert u == Tree(t.value.(end := LastLeaf(t).begin), t.children[n := x]);
      assert EmptiedLast(t) == EmptiedLast(c);
      hide Leaves, DropLast, LeavesOf, EmptiedLast;
      LeavesLastChild(t, t.value.(end := LastLeaf(t).begin), x);
      FrontOfConcat(LeavesOf(t.children[..n]), Leaves(c), EmptiedLast(c));
    }
  }

  lemma LeavesWithoutFirst(t: Tree)
    ensures LeavesOf(WithoutFirst(t)) == EmptiedFirst(t) + Leaves(t)[1..]
  {
    if IsLeaf(t) {
      LeavesOfLeaf(t);
    } else {
      LeavesDropFirst(t);
      LeavesOne(DropFirst(t));
    }
  }

  lemma LeavesWithoutLast(t: Tree)
    ensures LeavesOf(WithoutLast(t)) == Leaves(t)[..|Leaves(t)| - 1] + EmptiedLast(t)
  {
    if IsLeaf(t) {
      LeavesOfLeaf(t);
    } else {
      LeavesDropLast(t);
      LeavesOne(DropLast(t));
    }
  }

  /** Leaves around two neighbouring children. */
  lemma LeavesOfParts(a: seq<Tree>, l: seq<Tree>, r: seq<Tree>, b: seq<Tree>)
    ensures LeavesOf(a + l + r + b) == LeavesOf(a) + LeavesOf(l) + LeavesOf(r) + LeavesOf(b)
  {
    LeavesConcat(a + l + r, b);
    LeavesConcat(a + l, r);
    LeavesConcat(a, l);
  }

  /** Two neighbouring leaves l and r of one list are replaced, in the other, by what. */
  ghost predicate LeavesReplaced(before: seq<Line>, after: seq<Line>, l: Line, r: Line, what: seq<Line>) {
    exists a, b :: before == a + [l, r] + b && after == a + what + b
  }

  lemma LeavesOfNeighbours(t: Tree, j: nat)
    requires 0 < j < |t.children|
    ensures Leaves(t) == LeavesOf(t.children[..j - 1]) + Leaves(t.children[j - 1])
                         + Leaves(t.children[j]) + LeavesOf(t.children[j + 1..])
  {
    hide LeavesOf;
    LeavesOne(t.children[j - 1]);
    LeavesOne(t.children[j]);
    assert t.children == t.children[..j - 1] + [t.children[j - 1]] + [t.children[j]] + t.children[j + 1..];
    LeavesOfParts(t.children[..j - 1], [t.children[j - 1]], [t.children[j]], t.children[j + 1..]);
  }

  /** The shape of all three leaf lists. */
  lemma ReplaceLeaves(a: seq<Line>, l: seq<Line>, r: seq<Line>, b: seq<Line>, u: seq<Line>, v: seq<Line>,
                      l': seq<Line>, r': seq<Line>)
    requires l != [] && r != [] && l' == l[..|l| - 1] + u && r' == v + r[1..]
    ensures LeavesReplaced(a + l + r + b, a + l' + r' + b, l[|l| - 1], r[0], u + v)
  {
    var a', b' := a + l[..|l| - 1], r[1..] + b;
    assert a + l + r + b == a' + [l[|l| - 1], r[0]] + b';
    assert a + l' + r' + b == a' + (u + v) + b';
  }

  /** New trees in place of children j - 1 and j. */
  lemma NeighboursReplaced(t: Tree, j: nat, l': seq<Tree>, r': seq<Tree>, u: seq<Line>, v: seq<Line>)
    requires 0 < j < |t.children|
    requires LeavesOf(l') == Leaves(t.children[j - 1])[..|Leaves(t.children[j - 1])| - 1] + u
    requires LeavesOf(r') == v + Leaves(t.children[j])[1..]
    ensures LeavesReplaced(Leaves(t), LeavesOf(t.children[..j - 1] + l' + r' + t.children[j + 1..]),
                           LastLeaf(t.children[j - 1]), FirstLeaf(t.children[j]), u + v)
  {
    hide Leaves, LeavesOf, LeavesReplaced;
    var l, r := Leaves(t.children[j - 1]), Leaves(t.children[j]);
    LeavesOfNeighbours(t, j);
    LeavesOfParts(t.children[..j - 1], l', r', t.children[j + 1..]);
    ReplaceLeaves(LeavesOf(t.children[..j - 1]), l, r, LeavesOf(t.children[j + 1..]), u, v, LeavesOf(l'), LeavesOf(r'));
  }

  lemma LeavesMergedBack(t: Tree, j: nat)
    requires 0 < j < |t.children|
    ensures var l, r := LastLeaf(t.children[j - 1]), FirstLeaf(t.children[j]);
            LeavesReplaced(Leaves(t), Leaves(MergedBack(t, j)), l, r, [l.(end := r.end)] + EmptiedFirst(t.children[j]))
  {
    var l, r := t.children[j - 1], t.children[j];
    var e := FirstLeaf(r).end;
    LeavesInner(MergedBack(t, j));
    hide Leaves, LeavesOf, ExtendLast, WithoutFirst, EmptiedFirst, LeavesReplaced;
    LeavesOne(ExtendLast(l, e));
    LeavesExtendLast(l, e);
    LeavesWithoutFirst(r);
    NeighboursReplaced(t, j, [ExtendLast(l, e)], WithoutFirst(r), [LastLeaf(l).(end := e)], EmptiedFirst(r));
  }

  lemma LeavesGroupedBack(t: Tree, j: nat)
    requires 0 < j < |t.children|
    ensures var l, r := LastLeaf(t.children[j - 1]), FirstLeaf(t.children[j]);
            LeavesReplaced(Leaves(t), Leaves(GroupedBack(t, j)), l, r, [l, r] + EmptiedFirst(t.children[j]))
  {
    var l, r := t.children[j - 1], t.children[j];
    var x := FirstLeaf(r);
    LeavesInner(GroupedBack(t, j));
    hide Leaves, LeavesOf, GroupLast, WithoutFirst, EmptiedFirst, LeavesReplaced;
    LeavesOne(GroupLast(l, x));
    LeavesGroupLast(l, x);
    LeavesWithoutFirst(r);
    LastAndMore(Leaves(l), x);
    NeighboursReplaced(t, j, [GroupLast(l, x)], WithoutFirst(r), [LastLeaf(l), x], EmptiedFirst(r));
  }

  lemma LastAndMore(s: seq<Line>, x: Line)
    requires s != []
    ensures s + [x] == s[..|s| - 1] + [s[|s| - 1], x]
  {
  }

  lemma LeavesMergedForward(t: Tree, j: nat)
    requires j + 1 < |t.children|
    ensures var l, r := LastLeaf(t.children[j]), FirstLeaf(t.children[j + 1]);
            LeavesReplaced(Leaves(t), Leaves(MergedForward(t, j)), l, r, EmptiedLast(t.children[j]) + [r.(begin := l.begin)])
  {
    var l, r := t.children[j], t.children[j + 1];
    var s := LastLeaf(l).begin;
    LeavesInner(MergedForward(t, j));
    hide Leaves, LeavesOf, ExtendFirst, WithoutLast, EmptiedLast, LeavesReplaced;
    LeavesOne(ExtendFirst(r, s));
    LeavesExtendFirst(r, s);
    LeavesWithoutLast(l);
    NeighboursReplaced(t, j + 1, WithoutLast(l), [ExtendFirst(r, s)], EmptiedLast(l), [FirstLeaf(r).(begin := s)]);
  }

  /** A change of leaves in a subtree is one in the tree. */
  lemma LeavesReplacedAt(t: Tree, c: Path, x: Tree, l: Line, r: Line, what: seq<Line>)
    requires Has(t, c) && LeavesReplaced(Leaves(At(t, c)), Leaves(x), l, r, what)
    ensures LeavesReplaced(Leaves(t), Leaves(Put(t, c, x)), l, r, what)
  {
    hide Leaves, Put, At;
    var pre, post := LeavesPut(t, c, x);
    var a, b :| Leaves(At(t, c)) == a + [l, r] + b && Leaves(x) == a + what + b;
    Rebracket(pre, a, [l, r], b, post);
    Rebracket(pre, a, what, b, post);
    assert Leaves(t) == (pre + a) + [l, r] + (b + post);
    assert Leaves(Put(t, c, x)) == (pre + a) + what + (b + post);
  }
}

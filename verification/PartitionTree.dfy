/** Trees of token partitions, with nodes addressed by paths from the root
    (verible/common/util/tree-operations.h). */
module PartitionTree {
  import Seqs

  /** A partition: an indentation and the range [begin, end) of its tokens. */
  datatype Line = Line(indent: int, begin: int, end: int)

  datatype Tree = Tree(value: Line, children: seq<Tree>)

  type Path = seq<nat>

  datatype Option<T> = None | Some(value: T)

  predicate IsLeaf(t: Tree) { t.children == [] }

  // ----- nodes by path

  predicate Has(t: Tree, p: Path) {
    p == [] || (p[0] < |t.children| && Has(t.children[p[0]], p[1..]))
  }

  function At(t: Tree, p: Path): Tree
    requires Has(t, p)
  {
    if p == [] then t else At(t.children[p[0]], p[1..])
  }

  function WithChild(t: Tree, i: nat, x: Tree): Tree
    requires i < |t.children|
  {
    t.(children := t.children[i := x])
  }

  function Put(t: Tree, p: Path, x: Tree): Tree
    requires Has(t, p)
  {
    if p == [] then x else WithChild(t, p[0], Put(t.children[p[0]], p[1..], x))
  }

  /** A longer path goes through a shorter one. */
  lemma {:induction false} AtThrough(t: Tree, p: Path, r: Path)
    ensures Has(t, p + r) <==> Has(t, p) && Has(At(t, p), r)
    ensures Has(t, p + r) ==> At(t, p + r) == At(At(t, p), r)
  {
    if p == [] {
      assert p + r == r;
    } else if p[0] < |t.children| {
      assert (p + r)[1..] == p[1..] + r;
      AtThrough(t.children[p[0]], p[1..], r);
    }
  }

  lemma {:induction false} PutThrough(t: Tree, p: Path, r: Path, x: Tree)
    requires Has(t, p) && Has(At(t, p), r)
    ensures Has(t, p + r) && Put(t, p + r, x) == Put(t, p, Put(At(t, p), r, x))
  {
    AtThrough(t, p, r);
    if p == [] {
      assert p + r == r;
    } else {
      assert (p + r)[1..] == p[1..] + r;
      PutThrough(t.children[p[0]], p[1..], r, x);
    }
  }

  /** What was put at a path is there, and putting again replaces it. */
  lemma {:induction false} PutAgain(t: Tree, p: Path, x: Tree, y: Tree)
    requires Has(t, p)
    ensures Has(Put(t, p, x), p) && At(Put(t, p, x), p) == x && Put(Put(t, p, x), p, y) == Put(t, p, y)
  {
    if p != [] {
      PutAgain(t.children[p[0]], p[1..], x, y);
      var u := Put(t, p, x);
      assert u.children[p[0] := Put(t.children[p[0]], p[1..], y)] == t.children[p[0] := Put(t.children[p[0]], p[1..], y)];
    }
  }

  // ----- the range invariants

  /** A parent spans its children, and siblings are contiguous. */
  predicate NodeOk(t: Tree) {
    var cc := t.children;
    cc != [] ==>
      && t.value.begin == cc[0].value.begin && t.value.end == cc[|cc| - 1].value.end
      && forall i :: 0 < i < |cc| ==> cc[i - 1].value.end == cc[i].value.begin
  }

  predicate RangesOk(t: Tree) {
    t.value.begin <= t.value.end && NodeOk(t) && forall i :: 0 <= i < |t.children| ==> RangesOk(t.children[i])
  }

  predicate SameRange(s: Tree, t: Tree) {
    s.value.begin == t.value.begin && s.value.end == t.value.end
  }

  lemma {:induction false} SubtreeOk(t: Tree, p: Path)
    requires RangesOk(t) && Has(t, p)
    ensures RangesOk(At(t, p))
  {
    if p != [] {
      SubtreeOk(t.children[p[0]], p[1..]);
    }
  }

  /** Replacing a subtree by one with the same range keeps every range. */
  lemma {:induction false} PutOk(t: Tree, p: Path, x: Tree)
    requires RangesOk(t) && Has(t, p) && RangesOk(x) && SameRange(x, At(t, p))
    ensures RangesOk(Put(t, p, x)) && SameRange(Put(t, p, x), t)
    ensures p != [] ==> Put(t, p, x).value == t.value
  {
    if p != [] {
      PutOk(t.children[p[0]], p[1..], x);
    }
  }

  /** VerifyTreeNodeFormatTokenRanges: the checks of one node. */
  method VerifyNodeRanges(node: Tree) returns (ok: bool)
    ensures ok <==> NodeOk(node)
  {
    var cc := node.children;
    if cc != [] {
      if node.value.begin != cc[0].value.begin || node.value.end != cc[|cc| - 1].value.end {
        return false;
      }
      var previousEnd := cc[0].value.end;
      for i := 1 to |cc|
        invariant previousEnd == cc[i - 1].value.end
        invariant forall j :: 0 < j < i ==> cc[j - 1].value.end == cc[j].value.begin
      {
        if cc[i].value.begin != previousEnd {
          return false;
        }
        previousEnd := cc[i].value.end;
      }
    }
    return true;
  }

  /** Every node's range is a range. */
  predicate Ordered(t: Tree) {
    t.value.begin <= t.value.end && forall i :: 0 <= i < |t.children| ==> Ordered(t.children[i])
  }

  /** VerifyFullTreeFormatTokenRanges: the checks of every node. */
  method VerifyTreeRanges(t: Tree) returns (ok: bool)
    requires Ordered(t)
    ensures ok <==> RangesOk(t)
    decreases t
  {
    ok := VerifyNodeRanges(t);
    if !ok {
      return;
    }
    for i := 0 to |t.children|
      invariant forall j :: 0 <= j < i ==> RangesOk(t.children[j])
    {
      ok := VerifyTreeRanges(t.children[i]);
      if !ok {
        return;
      }
    }
    return true;
  }

  // ----- leaves in order

  function Leaves(t: Tree): (r: seq<Line>)
    ensures r != []
  {
    if IsLeaf(t) then [t.value] else LeavesOf(t.children)
  }

  function LeavesOf(ts: seq<Tree>): (r: seq<Line>)
    ensures ts != [] ==> r != []
  {
    if ts == [] then [] else Leaves(ts[0]) + LeavesOf(ts[1..])
  }

  lemma {:induction false} LeavesConcat(s: seq<Tree>, t: seq<Tree>)
    ensures LeavesOf(s + t) == LeavesOf(s) + LeavesOf(t)
  {
    if s == [] {
      assert s + t == t;
    } else {
      hide Leaves;
      LeavesConcat(s[1..], t);
      Seqs.TailOfConcat(s, t);
      Seqs.Associative(Leaves(s[0]), LeavesOf(s[1..]), LeavesOf(t));
    }
  }

  lemma LeavesOne(t: Tree)
    ensures LeavesOf([t]) == Leaves(t)
  {
    assert [t][1..] == [];
  }

  /** The leaves before, in and after child i. */
  lemma LeavesAround(ts: seq<Tree>, i: nat)
    requires i < |ts|
    ensures LeavesOf(ts) == LeavesOf(ts[..i]) + Leaves(ts[i]) + LeavesOf(ts[i + 1..])
  {
    hide Leaves, LeavesOf;
    Seqs.Around(ts, i);
    LeavesConcat(ts[..i], [ts[i]] + ts[i + 1..]);
    LeavesConcat([ts[i]], ts[i + 1..]);
    LeavesOne(ts[i]);
    Seqs.Associative(LeavesOf(ts[..i]), Leaves(ts[i]), LeavesOf(ts[i + 1..]));
  }

  lemma LeavesInner(t: Tree)
    requires !IsLeaf(t)
    ensures Leaves(t) == LeavesOf(t.children)
  {
  }

  lemma Rebracket(a: seq<Line>, b: seq<Line>, x: seq<Line>, c: seq<Line>, d: seq<Line>)
    ensures a + (b + x + c) + d == (a + b) + x + (c + d)
  {
  }

  ghost predicate Around(t: Tree, p: Path, pre: seq<Line>, post: seq<Line>)
    requires Has(t, p)
  {
    Leaves(t) == pre + Leaves(At(t, p)) + post
  }

  /** Replacing a subtree replaces just its leaves. */
  lemma {:induction false} LeavesPut(t: Tree, p: Path, x: Tree) returns (pre: seq<Line>, post: seq<Line>)
    requires Has(t, p)
    ensures Around(t, p, pre, post) && Leaves(Put(t, p, x)) == pre + Leaves(x) + post
  {
    if p == [] {
      pre, post := [], [];
    } else {
      var i, c := p[0], t.children[p[0]];
      var u := Put(t, p, x);
      hide Leaves, LeavesOf;
      var a, b := LeavesPut(c, p[1..], x);
      LeavesInner(t);
      LeavesInner(u);
      LeavesAround(t.children, i);
      LeavesAround(u.children, i);
      assert u.children[..i] == t.children[..i] && u.children[i + 1..] == t.children[i + 1..];
      pre, post := LeavesOf(t.children[..i]) + a, b + LeavesOf(t.children[i + 1..]);
      Rebracket(LeavesOf(t.children[..i]), a, Leaves(At(t, p)), b, LeavesOf(t.children[i + 1..]));
      Rebracket(LeavesOf(t.children[..i]), a, Leaves(x), b, LeavesOf(t.children[i + 1..]));
    }
  }

  // ----- moving between leaves

  predicate IsRightmost(t: Tree, r: Path)
  {
    if r == [] then IsLeaf(t)
    else !IsLeaf(t) && r[0] == |t.children| - 1 && IsRightmost(t.children[r[0]], r[1..])
  }

  predicate IsLeftmost(t: Tree, r: Path)
  {
    if r == [] then IsLeaf(t)
    else !IsLeaf(t) && r[0] == 0 && IsLeftmost(t.children[0], r[1..])
  }

  function RightmostDescendant(t: Tree): (r: Path)
    ensures IsRightmost(t, r) && Has(t, r) && IsLeaf(At(t, r))
  {
    var n := |t.children|;
    if n == 0 then [] else
      var r := RightmostDescendant(t.children[n - 1]);
      assert ([n - 1] + r)[1..] == r;
      [n - 1] + r
  }

  function LeftmostDescendant(t: Tree): (r: Path)
    ensures IsLeftmost(t, r) && Has(t, r) && IsLeaf(At(t, r))
  {
    if IsLeaf(t) then [] else
      var r := LeftmostDescendant(t.children[0]);
      assert ([0] + r)[1..] == r;
      [0] + r
  }

  /** Child j of the node at c holds p as its first node, and q is the last leaf of child j - 1. */
  predicate FollowsAt(t: Tree, p: Path, q: Path, k: nat) {
    && Has(t, p) && k < |p| && 0 < p[k] && (forall i :: k < i < |p| ==> p[i] == 0)
    && Has(t, p[..k]) && p[k] < |At(t, p[..k]).children|
    && k < |q| && q[..k] == p[..k] && q[k] == p[k] - 1
    && IsRightmost(At(t, p[..k]).children[q[k]], q[k + 1..])
  }

  /** Child j of the node at c holds p as its last node, and q is the first leaf of child j + 1. */
  predicate PrecedesAt(t: Tree, p: Path, q: Path, k: nat) {
    && Has(t, p) && k < |p| && Has(t, p[..k]) && p[k] + 1 < |At(t, p[..k]).children|
    && (forall i :: k < i < |p| ==> Has(t, p[..i]) && p[i] + 1 == |At(t, p[..i]).children|)
    && k < |q| && q[..k] == p[..k] && q[k] == p[k] + 1
    && IsLeftmost(At(t, p[..k]).children[q[k]], q[k + 1..])
  }

  lemma HasPrefix(t: Tree, p: Path, n: nat)
    requires Has(t, p) && n < |p|
    ensures Has(t, p[..n]) && p[n] < |At(t, p[..n]).children|
    ensures Has(t, p[..n + 1]) && At(t, p[..n + 1]) == At(t, p[..n]).children[p[n]]
  {
    assert p == p[..n] + p[n..];
    AtThrough(t, p[..n], p[n..]);
    assert p[..n + 1] == p[..n] + [p[n]];
    AtThrough(t, p[..n], [p[n]]);
    assert [p[n]][1..] == [];
  }

  /** The leaf before a node, if any; the node's ancestors tell which. */
  function PreviousLeaf(t: Tree, p: Path): (q: Option<Path>)
    requires Has(t, p)
    ensures q.Some? ==> exists k :: FollowsAt(t, p, q.value, k)
    ensures q.None? <==> forall i :: 0 <= i < |p| ==> p[i] == 0
    decreases |p|
  {
    if p == [] then None
    else
      var n := |p| - 1;
      HasPrefix(t, p, n);
      if p[n] > 0 then
        var r := RightmostDescendant(At(t, p[..n]).children[p[n] - 1]);
        FollowsHere(t, p, r);
        Some(p[..n] + ([p[n] - 1] + r))
      else
        var q := PreviousLeaf(t, p[..n]);
        assert q.Some? ==> (exists k :: FollowsAt(t, p, q.value, k)) by {
          if q.Some? {
            var k: nat :| FollowsAt(t, p[..n], q.value, k);
            FollowsBelow(t, p, q.value, k);
          }
        }
        q
  }

  lemma FollowsHere(t: Tree, p: Path, r: Path)
    requires p != [] && Has(t, p) && p[|p| - 1] > 0
    requires Has(t, p[..|p| - 1]) && p[|p| - 1] < |At(t, p[..|p| - 1]).children|
    requires IsRightmost(At(t, p[..|p| - 1]).children[p[|p| - 1] - 1], r)
    ensures FollowsAt(t, p, p[..|p| - 1] + ([p[|p| - 1] - 1] + r), |p| - 1)
  {
    hide Has, At, IsRightmost;
    var n := |p| - 1;
    var q := p[..n] + ([p[n] - 1] + r);
    assert q[..n] == p[..n] && q[n + 1..] == r;
  }

  lemma FollowsBelow(t: Tree, p: Path, q: Path, k: nat)
    requires p != [] && p[|p| - 1] == 0 && Has(t, p) && FollowsAt(t, p[..|p| - 1], q, k)
    ensures FollowsAt(t, p, q, k)
  {
    hide Has, At, IsRightmost;
    assert p[..|p| - 1][..k] == p[..k];
  }

  /** The leaf after a node, if any. */
  function NextLeaf(t: Tree, p: Path): (q: Option<Path>)
    requires Has(t, p)
    ensures q.Some? ==> exists k :: PrecedesAt(t, p, q.value, k)
    ensures q.None? ==> forall i :: 0 <= i < |p| ==> Has(t, p[..i]) && p[i] + 1 == |At(t, p[..i]).children|
    decreases |p|
  {
    if p == [] then None
    else
      var n := |p| - 1;
      HasPrefix(t, p, n);
      if p[n] + 1 < |At(t, p[..n]).children| then
        var r := LeftmostDescendant(At(t, p[..n]).children[p[n] + 1]);
        var q := p[..n] + ([p[n] + 1] + r);
        assert q[..n] == p[..n] && q[n + 1..] == r;
        assert PrecedesAt(t, p, q, n);
        Some(q)
      else
        var q := NextLeaf(t, p[..n]);
        assert forall i :: 0 <= i < n ==> p[..n][..i] == p[..i];
        assert q.Some? ==> (exists k :: PrecedesAt(t, p, q.value, k)) by {
          if q.Some? {
            var k: nat :| PrecedesAt(t, p[..n], q.value, k);
            NextStep(t, p, q.value, k);
          }
        }
        q
  }

  lemma NextStep(t: Tree, p: Path, q: Path, k: nat)
    requires p != [] && Has(t, p) && Has(t, p[..|p| - 1]) && PrecedesAt(t, p[..|p| - 1], q, k)
    requires p[|p| - 1] + 1 == |At(t, p[..|p| - 1]).children|
    ensures PrecedesAt(t, p, q, k)
  {
    var n := |p| - 1;
    assert forall i :: 0 <= i < n ==> p[..n][..i] == p[..i] && p[..n][i] == p[i];
  }

  // ----- the nearest common ancestor

  predicate IsPrefix(c: Path, p: Path) { |c| <= |p| && p[..|c|] == c }

  ghost predicate IsNearestCommonAncestor(a: Path, b: Path, c: Path) {
    IsPrefix(c, a) && IsPrefix(c, b) && forall d :: IsPrefix(d, a) && IsPrefix(d, b) ==> |d| <= |c|
  }

  /** The ancestors of a node from depth n on, itself included. */
  ghost predicate AncestorsFrom(s: set<Path>, p: Path, n: int) {
    forall d :: d in s <==> IsPrefix(d, p) && n <= |d|
  }

  lemma AncestorsMore(s: set<Path>, p: Path, n: nat)
    requires n <= |p| && AncestorsFrom(s, p, n + 1)
    ensures AncestorsFrom(s + {p[..n]}, p, n)
  {
  }

  /** The first ancestor seen from the other side is the nearest. */
  lemma SeenFirst(a: Path, b: Path, da: nat, db: int, sa: set<Path>, sb: set<Path>)
    requires da <= |a| && AncestorsFrom(sa, a, da + 1) && AncestorsFrom(sb, b, db + 1) && sa !! sb
    requires a[..da] in sb
    ensures IsNearestCommonAncestor(a, b, a[..da])
  {
    forall d | IsPrefix(d, a) && IsPrefix(d, b) ensures |d| <= da {
      assert d in sb || |d| <= db;
      assert d in sa || |d| <= da;
    }
  }

  lemma RootSeen(a: Path, sa: set<Path>)
    requires AncestorsFrom(sa, a, 0)
    ensures [] in sa
  {
    assert a[..0] == [];
  }

  /** Climbs from both nodes in turn until one has been seen from the other. */
  method NearestCommonAncestor(a: Path, b: Path) returns (c: Path)
    ensures IsNearestCommonAncestor(a, b, c)
  {
    hide AncestorsFrom, IsNearestCommonAncestor;
    // Depth -1 stands for having left the tree.
    var da, db := |a|, |b|;
    var ancestorsA: set<Path>, ancestorsB: set<Path> := {}, {};
    assert AncestorsFrom(ancestorsA, a, da + 1) && AncestorsFrom(ancestorsB, b, db + 1) by {
      NoneYet(a);
      NoneYet(b);
    }
    while da >= 0 || db >= 0
      invariant -1 <= da <= |a| && -1 <= db <= |b|
      invariant AncestorsFrom(ancestorsA, a, da + 1) && AncestorsFrom(ancestorsB, b, db + 1)
      invariant ancestorsA !! ancestorsB
      decreases da + db + 2
    {
      if da >= 0 {
        if a[..da] in ancestorsB {
          SeenFirst(a, b, da, db, ancestorsA, ancestorsB);
          return a[..da];
        }
        AncestorsMore(ancestorsA, a, da);
        ancestorsA := ancestorsA + {a[..da]};
        da := da - 1;
      }
      if db >= 0 {
        if b[..db] in ancestorsA {
          SeenFirst(b, a, db, da, ancestorsB, ancestorsA);
          NearestIsSymmetric(b, a, b[..db]);
          return b[..db];
        }
        AncestorsMore(ancestorsB, b, db);
        ancestorsB := ancestorsB + {b[..db]};
        db := db - 1;
      }
    }
    RootSeen(a, ancestorsA);
    RootSeen(b, ancestorsB);
    assert false;
    return [];
  }

  lemma NoneYet(p: Path)
    ensures AncestorsFrom({}, p, |p| + 1)
  {
  }

  lemma NearestIsSymmetric(a: Path, b: Path, c: Path)
    requires IsNearestCommonAncestor(a, b, c)
    ensures IsNearestCommonAncestor(b, a, c)
  {
  }

  /** Adjacent leaves have their nearest common ancestor where their paths part. */
  lemma PartAt(a: Path, b: Path, c: Path, k: nat)
    requires IsNearestCommonAncestor(a, b, c) && k < |a| && k < |b| && a[..k] == b[..k] && a[k] != b[k]
    ensures c == a[..k] && |c| == k
  {
    assert IsPrefix(a[..k], a) && IsPrefix(a[..k], b);
    assert forall i :: 0 <= i < |c| ==> a[i] == c[i] && b[i] == c[i];
    assert a[..|c|] == c;
  }
}

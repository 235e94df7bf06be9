/** The edits of a partition tree in place (verible/common/formatting/token-partition-tree.cc). */
module PartitionEdit {
  import opened PartitionTree
  import opened PartitionSurgery
  import Seqs

  // ----- bounds changed along a path

  /** The nodes on path p from depth d on end at e. */
  function EndsFrom(t: Tree, p: Path, d: nat, e: int): Tree
    requires Has(t, p)
    decreases |p|
  {
    Tree(if d == 0 then t.value.(end := e) else t.value,
         if p == [] then t.children else t.children[p[0] := EndsFrom(t.children[p[0]], p[1..], if d == 0 then 0 else d - 1, e)])
  }

  function BeginsFrom(t: Tree, p: Path, d: nat, b: int): Tree
    requires Has(t, p)
    decreases |p|
  {
    Tree(if d == 0 then t.value.(begin := b) else t.value,
         if p == [] then t.children else t.children[p[0] := BeginsFrom(t.children[p[0]], p[1..], if d == 0 then 0 else d - 1, b)])
  }

  function WithEnd(t: Tree, e: int): Tree { t.(value := t.value.(end := e)) }
  function WithBegin(t: Tree, b: int): Tree { t.(value := t.value.(begin := b)) }
  function WithoutChild(t: Tree, i: nat): Tree
    requires i < |t.children|
  {
    t.(children := t.children[..i] + t.children[i + 1..])
  }

  lemma {:induction false} NoBounds(t: Tree, p: Path, x: int)
    requires Has(t, p)
    ensures EndsFrom(t, p, |p| + 1, x) == t && BeginsFrom(t, p, |p| + 1, x) == t
    decreases |p|
  {
    if p != [] {
      NoBounds(t.children[p[0]], p[1..], x);
    }
  }

  /** Changing one more node towards the root. */
  lemma {:induction false} EndsStep(t: Tree, p: Path, n: nat, e: int)
    requires Has(t, p) && n <= |p|
    ensures var u := EndsFrom(t, p, n + 1, e);
            Has(u, p) && Has(u, p[..n]) && Put(u, p[..n], WithEnd(At(u, p[..n]), e)) == EndsFrom(t, p, n, e)
    decreases |p|
  {
    var u := EndsFrom(t, p, n + 1, e);
    if p != [] {
      EndsStep(t.children[p[0]], p[1..], if n > 0 then n - 1 else 0, e);
      if n > 0 {
        assert p[..n][1..] == p[1..][..n - 1];
        assert u.children[p[0] := EndsFrom(t.children[p[0]], p[1..], n - 1, e)] == EndsFrom(t, p, n, e).children;
      }
    }
  }

  lemma {:induction false} BeginsStep(t: Tree, p: Path, n: nat, b: int)
    requires Has(t, p) && n <= |p|
    ensures var u := BeginsFrom(t, p, n + 1, b);
            Has(u, p) && Has(u, p[..n]) && Put(u, p[..n], WithBegin(At(u, p[..n]), b)) == BeginsFrom(t, p, n, b)
    decreases |p|
  {
    var u := BeginsFrom(t, p, n + 1, b);
    if p != [] {
      BeginsStep(t.children[p[0]], p[1..], if n > 0 then n - 1 else 0, b);
      if n > 0 {
        assert p[..n][1..] == p[1..][..n - 1];
        assert u.children[p[0] := BeginsFrom(t.children[p[0]], p[1..], n - 1, b)] == BeginsFrom(t, p, n, b).children;
      }
    }
  }

  /** Changes below the node at c are changes of that node. */
  lemma {:induction false} EndsBelow(t: Tree, c: Path, r: Path, e: int)
    requires Has(t, c) && Has(At(t, c), r)
    ensures Has(t, c + r) && EndsFrom(t, c + r, |c| + 1, e) == Put(t, c, EndsFrom(At(t, c), r, 1, e))
    decreases |c|
  {
    AtThrough(t, c, r);
    if c == [] {
      assert c + r == r;
    } else {
      assert (c + r)[1..] == c[1..] + r;
      EndsBelow(t.children[c[0]], c[1..], r, e);
    }
  }

  lemma {:induction false} BeginsBelow(t: Tree, c: Path, r: Path, b: int)
    requires Has(t, c) && Has(At(t, c), r)
    ensures Has(t, c + r) && BeginsFrom(t, c + r, |c| + 1, b) == Put(t, c, BeginsFrom(At(t, c), r, 1, b))
    decreases |c|
  {
    AtThrough(t, c, r);
    if c == [] {
      assert c + r == r;
    } else {
      assert (c + r)[1..] == c[1..] + r;
      BeginsBelow(t.children[c[0]], c[1..], r, b);
    }
  }

  /** Ends changed down to the last leaf move the right edge. */
  lemma {:induction false} EndsToLast(t: Tree, r: Path, e: int)
    requires IsRightmost(t, r)
    ensures Has(t, r) && EndsFrom(t, r, 0, e) == ExtendLast(t, e)
    ensures LastLeaf(t) == At(t, r).value && IsLeaf(At(t, r))
    ensures Has(ExtendLast(t, e), r) && At(ExtendLast(t, e), r) == Tree(LastLeaf(t).(end := e), [])
    decreases |r|
  {
    if r != [] {
      EndsToLast(t.children[r[0]], r[1..], e);
      LeavesOfChildren(t);
    }
  }

  lemma {:induction false} BeginsToFirst(t: Tree, r: Path, b: int)
    requires IsLeftmost(t, r)
    ensures Has(t, r) && BeginsFrom(t, r, 0, b) == ExtendFirst(t, b)
    ensures FirstLeaf(t) == At(t, r).value && IsLeaf(At(t, r))
    decreases |r|
  {
    if r != [] {
      BeginsToFirst(t.children[0], r[1..], b);
      LeavesOfChildren(t);
    }
  }

  /** Begins changed along the first nodes, and the first leaf removed, leave the rest. */
  lemma {:induction false} BeginsAndRemove(t: Tree, r: Path)
    requires IsLeftmost(t, r + [0])
    ensures !IsLeaf(t) && Has(t, r)
    ensures var u := BeginsFrom(t, r, 0, FirstLeaf(t).end);
            && Has(u, r) && !IsLeaf(At(u, r)) && Put(u, r, WithoutChild(At(u, r), 0)) == DropFirst(t)
    decreases |r|
  {
    LeavesOfChildren(t);
    if r == [] {
      assert (r + [0])[1..] == [];
      LeavesOfLeaf(t.children[0]);
    } else {
      assert (r + [0])[1..] == r[1..] + [0];
      BeginsAndRemove(t.children[0], r[1..]);
    }
  }

  /** Ends changed along the last nodes, and the last leaf removed, leave the rest. */
  lemma {:induction false} EndsAndRemove(t: Tree, r: Path, i: nat)
    requires IsRightmost(t, r + [i])
    ensures !IsLeaf(t) && Has(t, r)
    ensures var u := EndsFrom(t, r, 0, LastLeaf(t).begin);
            && Has(u, r) && i < |At(u, r).children| && Put(u, r, WithoutChild(At(u, r), i)) == DropLast(t)
    decreases |r|
  {
    LeavesOfChildren(t);
    if r == [] {
      assert (r + [i])[1..] == [];
      LeavesOfLeaf(t.children[i]);
    } else {
      assert (r + [i])[1..] == r[1..] + [i];
      EndsAndRemove(t.children[r[0]], r[1..], i);
    }
  }

  /** Two leaves put below the last leaf, after the right edge moved. */
  lemma {:induction false} GroupIs(t: Tree, r: Path, x: Line)
    requires IsRightmost(t, r)
    ensures var u, l := ExtendLast(t, x.end), LastLeaf(t);
            Has(u, r) && Put(u, r, Tree(l.(end := x.end), [Tree(l, []), Tree(x, [])])) == GroupLast(t, x)
    decreases |r|
  {
    if r != [] {
      GroupIs(t.children[r[0]], r[1..], x);
      LeavesOfChildren(t);
    }
  }

  // ----- the steps of an edit below the common ancestor

  /** Steps on a subtree put at c are steps on that subtree. */
  lemma LiftAt(t: Tree, c: Path, x: Tree, r: Path)
    requires Has(t, c) && Has(x, r)
    ensures var u := Put(t, c, x); Has(u, c) && At(u, c) == x && Has(u, c + r) && At(u, c + r) == At(x, r)
  {
    PutAgain(t, c, x, x);
    AtThrough(Put(t, c, x), c, r);
  }

  lemma LiftPut(t: Tree, c: Path, x: Tree, r: Path, y: Tree)
    requires Has(t, c) && Has(x, r)
    ensures var u := Put(t, c, x); Has(u, c + r) && Put(u, c + r, y) == Put(t, c, Put(x, r, y))
  {
    LiftAt(t, c, x, r);
    PutThrough(Put(t, c, x), c, r, y);
    PutAgain(t, c, x, Put(x, r, y));
  }

  lemma LiftEnds(t: Tree, c: Path, x: Tree, r: Path, e: int)
    requires Has(t, c) && Has(x, r)
    ensures var u := Put(t, c, x);
            Has(u, c + r) && EndsFrom(u, c + r, |c| + 1, e) == Put(t, c, EndsFrom(x, r, 1, e))
  {
    LiftAt(t, c, x, r);
    EndsBelow(Put(t, c, x), c, r, e);
    PutAgain(t, c, x, EndsFrom(x, r, 1, e));
  }

  lemma LiftBegins(t: Tree, c: Path, x: Tree, r: Path, b: int)
    requires Has(t, c) && Has(x, r)
    ensures var u := Put(t, c, x);
            Has(u, c + r) && BeginsFrom(u, c + r, |c| + 1, b) == Put(t, c, BeginsFrom(x, r, 1, b))
  {
    LiftAt(t, c, x, r);
    BeginsBelow(Put(t, c, x), c, r, b);
    PutAgain(t, c, x, BeginsFrom(x, r, 1, b));
  }

  /** Bounds changed below child i only. */
  lemma ChildBounds(t: Tree, i: nat, r: Path, x: int)
    requires i < |t.children| && Has(t.children[i], r)
    ensures Has(t, [i] + r)
    ensures EndsFrom(t, [i] + r, 1, x) == WithChild(t, i, EndsFrom(t.children[i], r, 0, x))
    ensures BeginsFrom(t, [i] + r, 1, x) == WithChild(t, i, BeginsFrom(t.children[i], r, 0, x))
  {
    assert ([i] + r)[1..] == r;
  }

  lemma ChildPut(t: Tree, i: nat, r: Path, x: Tree)
    requires i < |t.children| && Has(t.children[i], r)
    ensures Has(t, [i] + r) && At(t, [i] + r) == At(t.children[i], r)
    ensures Put(t, [i] + r, x) == WithChild(t, i, Put(t.children[i], r, x))
  {
    assert ([i] + r)[1..] == r;
  }

  /** The second half of an edit towards the previous leaf: child j loses its first leaf, at path s. */
  function BackTail(t: Tree, s: Path, e: int): Tree
    requires BackReady(t, s, e)
  {
    var n := |s| - 1;
    var u := BeginsFrom(t, s[..n], 1, e);
    Put(u, s[..n], WithoutChild(At(u, s[..n]), s[n]))
  }

  predicate BackReady(t: Tree, s: Path, e: int) {
    && s != [] && Has(t, s[..|s| - 1]) && Has(BeginsFrom(t, s[..|s| - 1], 1, e), s[..|s| - 1])
    && s[|s| - 1] < |At(BeginsFrom(t, s[..|s| - 1], 1, e), s[..|s| - 1]).children|
  }

  lemma BackTailDeep(t: Tree, s: Path)
    requires |s| >= 2 && s[0] < |t.children| && IsLeftmost(t.children[s[0]], s[1..]) && s[|s| - 1] == 0
    ensures var j, e := s[0], FirstLeaf(t.children[s[0]]).end;
            && !IsLeaf(t.children[j]) && BackReady(t, s, e)
            && BackTail(t, s, e) == WithChild(t, j, DropFirst(t.children[j]))
  {
    var j, n, e := s[0], |s| - 1, FirstLeaf(t.children[s[0]]).end;
    var r := s[1..n];
    Seqs.WithoutLast(s);
    BeginsAndRemove(t.children[j], r);
    ChildBounds(t, j, r, e);
    var u := BeginsFrom(t, s[..n], 1, e);
    hide BeginsFrom, Leaves, DropFirst, IsLeftmost, Put, At, Has;
    ChildPut(u, j, r, WithoutChild(At(u.children[j], r), 0));
    assert u.children[j := DropFirst(t.children[j])] == t.children[j := DropFirst(t.children[j])];
  }

  lemma BackTailIs(t: Tree, s: Path)
    requires s != [] && s[0] < |t.children| && IsLeftmost(t.children[s[0]], s[1..])
    ensures var j, e := s[0], FirstLeaf(t.children[s[0]]).end;
            BackReady(t, s, e) && BackTail(t, s, e)
              == t.(children := t.children[..j] + WithoutFirst(t.children[j]) + t.children[j + 1..])
  {
    var j, n, e := s[0], |s| - 1, FirstLeaf(t.children[s[0]]).end;
    if n == 0 {
      assert s[..0] == [];
      assert t.children[..j] + [] + t.children[j + 1..] == t.children[..j] + t.children[j + 1..];
    } else {
      LeftmostEndsInZero(t.children[j], s[1..]);
      BackTailDeep(t, s);
      assert !IsLeaf(t.children[j]);
      hide BackReady, BackTail, Leaves, DropFirst, IsLeftmost, BeginsFrom, Has, At;
      Seqs.Replaced(t.children, j, DropFirst(t.children[j]));
    }
  }

  lemma {:induction false} LeftmostEndsInZero(t: Tree, r: Path)
    requires IsLeftmost(t, r) && r != []
    ensures r[|r| - 1] == 0
    decreases |r|
  {
    if |r| > 1 {
      LeftmostEndsInZero(t.children[0], r[1..]);
    }
  }

  function ForwardTail(t: Tree, s: Path, b: int): Tree
    requires ForwardReady(t, s, b)
  {
    var n := |s| - 1;
    var u := EndsFrom(t, s[..n], 1, b);
    Put(u, s[..n], WithoutChild(At(u, s[..n]), s[n]))
  }

  predicate ForwardReady(t: Tree, s: Path, b: int) {
    && s != [] && Has(t, s[..|s| - 1]) && Has(EndsFrom(t, s[..|s| - 1], 1, b), s[..|s| - 1])
    && s[|s| - 1] < |At(EndsFrom(t, s[..|s| - 1], 1, b), s[..|s| - 1]).children|
  }

  lemma ForwardTailDeep(t: Tree, s: Path)
    requires |s| >= 2 && s[0] < |t.children| && IsRightmost(t.children[s[0]], s[1..])
    ensures var j, b := s[0], LastLeaf(t.children[s[0]]).begin;
            && !IsLeaf(t.children[j]) && ForwardReady(t, s, b)
            && ForwardTail(t, s, b) == WithChild(t, j, DropLast(t.children[j]))
  {
    var j, n, b := s[0], |s| - 1, LastLeaf(t.children[s[0]]).begin;
    var r := s[1..n];
    Seqs.WithoutLast(s);
    EndsAndRemove(t.children[j], r, s[n]);
    ChildBounds(t, j, r, b);
    var u := EndsFrom(t, s[..n], 1, b);
    hide EndsFrom, Leaves, DropLast, IsRightmost, Put, At, Has;
    ChildPut(u, j, r, WithoutChild(At(u.children[j], r), s[n]));
    assert u.children[j := DropLast(t.children[j])] == t.children[j := DropLast(t.children[j])];
  }

  lemma ForwardTailIs(t: Tree, s: Path)
    requires s != [] && s[0] < |t.children| && IsRightmost(t.children[s[0]], s[1..])
    ensures var j, b := s[0], LastLeaf(t.children[s[0]]).begin;
            ForwardReady(t, s, b) && ForwardTail(t, s, b)
              == t.(children := t.children[..j] + WithoutLast(t.children[j]) + t.children[j + 1..])
  {
    var j, n, b := s[0], |s| - 1, LastLeaf(t.children[s[0]]).begin;
    if n == 0 {
      assert s[..0] == [];
      assert t.children[..j] + [] + t.children[j + 1..] == t.children[..j] + t.children[j + 1..];
    } else {
      ForwardTailDeep(t, s);
      assert !IsLeaf(t.children[j]);
      hide ForwardReady, ForwardTail, Leaves, DropLast, IsRightmost, EndsFrom, Has, At;
      Seqs.Replaced(t.children, j, DropLast(t.children[j]));
    }
  }

  /** The second half of the edit, on the whole tree. */
  lemma BackTailAt(t: Tree, c: Path, x: Tree, s: Path, e: int)
    requires Has(t, c) && BackReady(x, s, e)
    ensures var u, p := Put(t, c, x), c + s[..|s| - 1];
            && Has(u, p)
            && var v := BeginsFrom(u, p, |c| + 1, e);
               && Has(v, p) && s[|s| - 1] < |At(v, p).children|
               && Put(v, p, WithoutChild(At(v, p), s[|s| - 1])) == Put(t, c, BackTail(x, s, e))
  {
    var r := s[..|s| - 1];
    LiftBegins(t, c, x, r, e);
    var y := BeginsFrom(x, r, 1, e);
    LiftAt(t, c, y, r);
    LiftPut(t, c, y, r, WithoutChild(At(y, r), s[|s| - 1]));
  }

  lemma ForwardTailAt(t: Tree, c: Path, x: Tree, s: Path, b: int)
    requires Has(t, c) && ForwardReady(x, s, b)
    ensures var u, p := Put(t, c, x), c + s[..|s| - 1];
            && Has(u, p)
            && var v := EndsFrom(u, p, |c| + 1, b);
               && Has(v, p) && s[|s| - 1] < |At(v, p).children|
               && Put(v, p, WithoutChild(At(v, p), s[|s| - 1])) == Put(t, c, ForwardTail(x, s, b))
  {
    var r := s[..|s| - 1];
    LiftEnds(t, c, x, r, b);
    var y := EndsFrom(x, r, 1, b);
    LiftAt(t, c, y, r);
    LiftPut(t, c, y, r, WithoutChild(At(y, r), s[|s| - 1]));
  }

  lemma {:induction false} ZerosAreLeftmost(t: Tree, r: Path)
    requires Has(t, r) && IsLeaf(At(t, r)) && forall i :: 0 <= i < |r| ==> r[i] == 0
    ensures IsLeftmost(t, r)
    decreases |r|
  {
    if r != [] {
      ZerosAreLeftmost(t.children[0], r[1..]);
    }
  }

  lemma {:induction false} LastsAreRightmost(t: Tree, r: Path)
    requires Has(t, r) && IsLeaf(At(t, r))
    requires forall i :: 0 <= i < |r| ==> Has(t, r[..i]) && r[i] + 1 == |At(t, r[..i]).children|
    ensures IsRightmost(t, r)
    decreases |r|
  {
    if r != [] {
      assert r[..0] == [];
      var x := t.children[r[0]];
      forall i | 0 <= i < |r[1..]| ensures Has(x, r[1..][..i]) && r[1..][i] + 1 == |At(x, r[1..][..i]).children| {
        assert r[..i + 1][1..] == r[1..][..i];
        assert Has(t, r[..i + 1]) && r[i + 1] + 1 == |At(t, r[..i + 1]).children|;
      }
      LastsAreRightmost(x, r[1..]);
    }
  }

  /** Where a leaf and the leaf before it lie below their nearest common ancestor. */
  lemma FollowsMeans(t: Tree, p: Path, q: Path, k: nat)
    requires FollowsAt(t, p, q, k) && IsLeaf(At(t, p))
    ensures var c, j := p[..k], p[k]; var a := At(t, c);
            && IsLeftmost(a.children[j], p[k..][1..]) && IsRightmost(a.children[j - 1], q[k + 1..])
            && FirstLeaf(a.children[j]) == At(t, p).value
            && Has(t, q) && At(t, q) == Tree(LastLeaf(a.children[j - 1]), [])
    ensures p == p[..k] + p[k..] && q == p[..k] + ([p[k] - 1] + q[k + 1..])
  {
    var c, j, s, r := p[..k], p[k], p[k + 1..], q[k + 1..];
    var a := At(t, c);
    Seqs.Around(p, k);
    Seqs.Around(q, k);
    Seqs.Halves(p, k);
    hide Has, At, Leaves, IsRightmost, IsLeftmost;
    BelowChild(t, c, j, s);
    ZerosAreLeftmost(a.children[j], s);
    BeginsToFirst(a.children[j], s, 0);
    EndsToLast(a.children[j - 1], r, 0);
    BelowChild(t, c, j - 1, r);
  }

  /** The last nodes below child p[k], seen from that child. */
  lemma LastsBelow(t: Tree, p: Path, k: nat, i: nat)
    requires k + 1 + i < |p| && Has(t, p[..k]) && p[k] < |At(t, p[..k]).children| && Has(t, p[..k + 1 + i])
    ensures var x, r := At(t, p[..k]).children[p[k]], p[k + 1..];
            Has(x, r[..i]) && At(x, r[..i]) == At(t, p[..k + 1 + i])
  {
    var c, r := p[..k], p[k + 1..];
    assert p[..k + 1 + i] == c + ([p[k]] + r[..i]);
    AtThrough(t, c, [p[k]] + r[..i]);
    assert ([p[k]] + r[..i])[1..] == r[..i];
  }

  lemma PrecedesMeans(t: Tree, p: Path, q: Path, k: nat)
    requires PrecedesAt(t, p, q, k) && IsLeaf(At(t, p))
    ensures var c, j := p[..k], p[k]; var a := At(t, c);
            && IsRightmost(a.children[j], p[k..][1..]) && IsLeftmost(a.children[j + 1], q[k + 1..])
            && LastLeaf(a.children[j]) == At(t, p).value
            && Has(t, q) && At(t, q) == Tree(FirstLeaf(a.children[j + 1]), [])
    ensures p == p[..k] + p[k..] && q == p[..k] + ([p[k] + 1] + q[k + 1..])
  {
    var c, j, s, r := p[..k], p[k], p[k + 1..], q[k + 1..];
    var a := At(t, c);
    var x := a.children[j];
    forall i | 0 <= i < |s| ensures Has(x, s[..i]) && s[i] + 1 == |At(x, s[..i]).children| {
      LastsBelow(t, p, k, i);
    }
    Seqs.Around(p, k);
    Seqs.Around(q, k);
    Seqs.Halves(p, k);
    hide PrecedesAt, Has, At, Leaves, IsRightmost, IsLeftmost;
    BelowChild(t, c, j, s);
    LastsAreRightmost(x, s);
    EndsToLast(x, s, 0);
    BeginsToFirst(a.children[j + 1], r, 0);
    BelowChild(t, c, j + 1, r);
  }

  lemma BelowChild(t: Tree, c: Path, j: nat, r: Path)
    requires Has(t, c) && j < |At(t, c).children|
    ensures Has(t, c + ([j] + r)) <==> Has(At(t, c).children[j], r)
    ensures Has(t, c + ([j] + r)) ==> At(t, c + ([j] + r)) == At(At(t, c).children[j], r)
  {
    AtThrough(t, c, [j] + r);
    assert ([j] + r)[1..] == r;
  }

  // ----- the first half of an edit

  /** Ends changed from the previous leaf up to, but not at, the common ancestor. */
  lemma UpperIs(t: Tree, c: Path, j: nat, r: Path, e: int)
    requires Has(t, c) && j < |At(t, c).children| && IsRightmost(At(t, c).children[j], r)
    ensures var q, a := c + ([j] + r), At(t, c);
            Has(t, q) && EndsFrom(t, q, |c| + 1, e) == Put(t, c, WithChild(a, j, ExtendLast(a.children[j], e)))
  {
    var a := At(t, c);
    EndsToLast(a.children[j], r, e);
    ChildBounds(a, j, r, e);
    EndsBelow(t, c, [j] + r, e);
  }

  lemma LowerIs(t: Tree, c: Path, j: nat, r: Path, b: int)
    requires Has(t, c) && j < |At(t, c).children| && IsLeftmost(At(t, c).children[j], r)
    ensures var q, a := c + ([j] + r), At(t, c);
            Has(t, q) && BeginsFrom(t, q, |c| + 1, b) == Put(t, c, WithChild(a, j, ExtendFirst(a.children[j], b)))
  {
    var a := At(t, c);
    BeginsToFirst(a.children[j], r, b);
    ChildBounds(a, j, r, b);
    BeginsBelow(t, c, [j] + r, b);
  }

  /** The common ancestor already spans the leaf, so it is not extended. */
  lemma AncestorSpans(t: Tree, c: Path, j: nat)
    requires RangesOk(t) && Has(t, c) && j < |At(t, c).children|
    ensures RangesOk(At(t, c))
    ensures FirstLeaf(At(t, c).children[j]).end <= At(t, c).value.end
    ensures At(t, c).value.begin <= LastLeaf(At(t, c).children[j]).begin
  {
    hide Leaves;
    SubtreeOk(t, c);
    ChildOk(At(t, c), j);
    BeginsRise(At(t, c), j);
    EndsRise(At(t, c), j);
  }

  /** The ancestor is left as it was by the test whether it has to be extended. */
  lemma AncestorKept(t: Tree, c: Path, j: nat, x: Tree)
    requires RangesOk(t) && Has(t, c) && j < |At(t, c).children| && x.value == At(t, c).value
    ensures var u := Put(t, c, x);
            && Has(u, c) && At(u, c) == x
            && Put(u, c, WithEnd(x, Max(x.value.end, FirstLeaf(At(t, c).children[j]).end))) == u
            && Put(u, c, WithBegin(x, Min(x.value.begin, LastLeaf(At(t, c).children[j]).begin))) == u
  {
    hide Leaves, Put, At, Has, RangesOk;
    AncestorSpans(t, c, j);
    PutAgain(t, c, x, x);
  }

  function Max(a: int, b: int): int { if a < b then b else a }
  function Min(a: int, b: int): int { if a < b then a else b }

  /** The whole edit leaves a consistent tree with the same range. */
  lemma EditOk(t: Tree, c: Path, x: Tree)
    requires RangesOk(t) && Has(t, c) && RangesOk(x) && x.value == At(t, c).value
    ensures RangesOk(Put(t, c, x)) && Put(t, c, x).value == t.value
  {
    PutOk(t, c, x);
  }

  class TokenPartitionTree {
    var root: Tree

    constructor (t: Tree)
      ensures root == t
    {
      root := t;
    }

    /** Walks from a node towards the root, up to but not including the node at depth last. */
    method UpdateTokenRangeUpperBound(node: Path, last: nat, e: int)
      requires Has(root, node) && last <= |node|
      modifies this
      ensures root == EndsFrom(old(root), node, last + 1, e)
    {
      hide EndsFrom;
      NoBounds(root, node, e);
      var n := |node|;
      while n != last
        invariant last <= n <= |node|
        invariant root == EndsFrom(old(root), node, n + 1, e)
      {
        EndsStep(old(root), node, n, e);
        root := Put(root, node[..n], WithEnd(At(root, node[..n]), e));
        n := n - 1;
      }
    }

    method UpdateTokenRangeLowerBound(node: Path, last: nat, b: int)
      requires Has(root, node) && last <= |node|
      modifies this
      ensures root == BeginsFrom(old(root), node, last + 1, b)
    {
      hide BeginsFrom;
      NoBounds(root, node, b);
      var n := |node|;
      while n != last
        invariant last <= n <= |node|
        invariant root == BeginsFrom(old(root), node, n + 1, b)
      {
        BeginsStep(old(root), node, n, b);
        root := Put(root, node[..n], WithBegin(At(root, node[..n]), b));
        n := n - 1;
      }
    }

    method RemoveSelfFromParent(node: Path)
      requires node != [] && Has(root, node[..|node| - 1])
      requires node[|node| - 1] < |At(root, node[..|node| - 1]).children|
      modifies this
      ensures var n := |node| - 1; root == Put(old(root), node[..n], WithoutChild(At(old(root), node[..n]), node[n]))
    {
      var n := |node| - 1;
      root := Put(root, node[..n], WithoutChild(At(root, node[..n]), node[n]));
    }

    /** Merges a leaf into the leaf before it; returns the leaf's former parent. */
    method MergeLeafIntoPreviousLeaf(leaf: Path) returns (r: Option<Path>)
      requires RangesOk(root) && Has(root, leaf) && IsLeaf(At(root, leaf))
      modifies this
      ensures r.None? <==> forall i :: 0 <= i < |leaf| ==> leaf[i] == 0
      ensures r.None? ==> root == old(root)
      ensures r.Some? ==> leaf != [] && r.value == leaf[..|leaf| - 1]
      ensures r.Some? ==> exists q, k :: MergedIntoPrevious(old(root), root, leaf, q, k)
    {
      hide EndsFrom, BeginsFrom, Put, At, Has, RangesOk, Leaves, FollowsAt, PrecedesAt, IsNearestCommonAncestor,
        MergedIntoPrevious, GroupedWithPrevious, MergedIntoNext, MergedBack, GroupedBack, MergedForward, WithoutFirst,
        WithoutLast, ExtendLast, ExtendFirst, GroupLast, IsRightmost, IsLeftmost;
      var target := PreviousLeaf(root, leaf);
      if target.None? {
        return None;
      }
      var q := target.value;
      var ancestor := NearestCommonAncestor(leaf, q);
      ghost var k: nat :| FollowsAt(root, leaf, q, k);
      ghost var t := root;
      PlaceOfPrevious(t, leaf, q, ancestor, k);
      var e := At(root, leaf).value.end;
      ghost var below, j := At(t, ancestor), leaf[k];
      ghost var x := WithChild(below, j - 1, ExtendLast(below.children[j - 1], e));
      UpperIs(t, ancestor, j - 1, q[k + 1..], e);
      AncestorKept(t, ancestor, j, x);
      BackRest(t, leaf, q, k, x);
      BackParts(below, j);
      MergedFacts(t, leaf, q, k);
      UpdateTokenRangeUpperBound(q, |ancestor|, e);
      var a := At(root, ancestor);
      root := Put(root, ancestor, WithEnd(a, Max(a.value.end, e)));
      UpdateTokenRangeLowerBound(leaf[..|leaf| - 1], |ancestor|, e);
      RemoveSelfFromParent(leaf);
      return Some(leaf[..|leaf| - 1]);
    }

    /** Puts a leaf and the leaf before it under a new group in place of the latter; returns the group. */
    method GroupLeafWithPreviousLeaf(leaf: Path) returns (r: Option<Path>)
      requires RangesOk(root) && Has(root, leaf) && IsLeaf(At(root, leaf))
      modifies this
      ensures r.None? <==> forall i :: 0 <= i < |leaf| ==> leaf[i] == 0
      ensures r.None? ==> root == old(root)
      ensures r.Some? ==> exists k :: GroupedWithPrevious(old(root), root, leaf, r.value, k)
    {
      hide EndsFrom, BeginsFrom, Put, At, Has, RangesOk, Leaves, FollowsAt, PrecedesAt, IsNearestCommonAncestor,
        MergedIntoPrevious, GroupedWithPrevious, MergedIntoNext, MergedBack, GroupedBack, MergedForward, WithoutFirst,
        WithoutLast, ExtendLast, ExtendFirst, GroupLast, IsRightmost, IsLeftmost;
      var target := PreviousLeaf(root, leaf);
      if target.None? {
        return None;
      }
      var q := target.value;
      var ancestor := NearestCommonAncestor(leaf, q);
      ghost var k: nat :| FollowsAt(root, leaf, q, k);
      ghost var t := root;
      PlaceOfPrevious(t, leaf, q, ancestor, k);
      var line, previous := At(root, leaf).value, At(root, q).value;
      var e := line.end;
      ghost var below, j := At(t, ancestor), leaf[k];
      ghost var x := WithChild(below, j - 1, GroupLast(below.children[j - 1], line));
      UpperIs(t, ancestor, j - 1, q[k + 1..], e);
      GroupPut(t, ancestor, j - 1, q[k + 1..], line);
      AncestorKept(t, ancestor, j, x);
      BackRest(t, leaf, q, k, x);
      GroupParts(below, j);
      GroupedFacts(t, leaf, q, k);
      UpdateTokenRangeUpperBound(q, |ancestor|, e);
      var node := At(root, q);
      assert node.children + [Tree(previous, []), Tree(line, [])] == [Tree(previous, []), Tree(line, [])];
      root := Put(root, q, node.(children := node.children + [Tree(previous, []), Tree(line, [])]));
      var a := At(root, ancestor);
      root := Put(root, ancestor, WithEnd(a, Max(a.value.end, e)));
      UpdateTokenRangeLowerBound(leaf[..|leaf| - 1], |ancestor|, e);
      RemoveSelfFromParent(leaf);
      return Some(q);
    }

    /** Merges a leaf into the leaf after it; returns the leaf's former parent. */
    method MergeLeafIntoNextLeaf(leaf: Path) returns (r: Option<Path>)
      requires RangesOk(root) && Has(root, leaf) && IsLeaf(At(root, leaf))
      modifies this
      ensures r.None? ==> root == old(root)
      ensures r.None? <==> IsRightmost(old(root), leaf)
      ensures r.Some? ==> leaf != [] && r.value == leaf[..|leaf| - 1]
      ensures r.Some? ==> exists q, k :: MergedIntoNext(old(root), root, leaf, q, k)
    {
      hide EndsFrom, BeginsFrom, Put, At, Has, RangesOk, Leaves, FollowsAt, PrecedesAt, IsNearestCommonAncestor,
        MergedIntoPrevious, GroupedWithPrevious, MergedIntoNext, MergedBack, GroupedBack, MergedForward, WithoutFirst,
        WithoutLast, ExtendLast, ExtendFirst, GroupLast, IsRightmost, IsLeftmost;
      var target := NextLeaf(root, leaf);
      if target.None? {
        LastsAreRightmost(root, leaf);
        return None;
      }
      var q := target.value;
      var ancestor := NearestCommonAncestor(leaf, q);
      ghost var k: nat :| PrecedesAt(root, leaf, q, k);
      ghost var t := root;
      NotTheLast(t, leaf, q, k);
      PlaceOfNext(t, leaf, q, ancestor, k);
      var b := At(root, leaf).value.begin;
      ghost var below, j := At(t, ancestor), leaf[k];
      ghost var x := WithChild(below, j + 1, ExtendFirst(below.children[j + 1], b));
      LowerIs(t, ancestor, j + 1, q[k + 1..], b);
      AncestorKept(t, ancestor, j, x);
      ForwardRest(t, leaf, q, k, x);
      ForwardParts(below, j);
      ForwardMergedFacts(t, leaf, q, k);
      UpdateTokenRangeLowerBound(q, |ancestor|, b);
      var a := At(root, ancestor);
      root := Put(root, ancestor, WithBegin(a, Min(a.value.begin, b)));
      UpdateTokenRangeUpperBound(leaf[..|leaf| - 1], |ancestor|, b);
      RemoveSelfFromParent(leaf);
      return Some(leaf[..|leaf| - 1]);
    }
  }

  /** The tree before and after a leaf p was merged into the leaf q before it. */
  ghost predicate MergedIntoPrevious(t: Tree, u: Tree, p: Path, q: Path, k: nat) {
    && FollowsAt(t, p, q, k) && Has(t, q)
    && u == Put(t, p[..k], MergedBack(At(t, p[..k]), p[k]))
    && RangesOk(u) && u.value == t.value
    && var l, r := At(t, q).value, At(t, p).value;
       LeavesReplaced(Leaves(t), Leaves(u), l, r, [l.(end := r.end)] + EmptiedFirst(At(t, p[..k]).children[p[k]]))
  }

  /** The two halves make up the merge. */
  lemma BackParts(a: Tree, j: nat)
    requires 0 < j < |a.children|
    ensures var x := WithChild(a, j - 1, ExtendLast(a.children[j - 1], FirstLeaf(a.children[j]).end));
            x.(children := x.children[..j] + WithoutFirst(x.children[j]) + x.children[j + 1..]) == MergedBack(a, j)
  {
    hide Leaves, ExtendLast, WithoutFirst;
    var y := ExtendLast(a.children[j - 1], FirstLeaf(a.children[j]).end);
    assert a.children[j - 1 := y][..j] == a.children[..j - 1] + [y];
  }

  /** A leaf and the leaf before it are contiguous, below the ancestor where their paths part. */
  lemma PlaceOfPrevious(t: Tree, p: Path, q: Path, c: Path, k: nat)
    requires RangesOk(t) && FollowsAt(t, p, q, k) && IsLeaf(At(t, p)) && IsNearestCommonAncestor(p, q, c)
    ensures k < |p| && c == p[..k] && |c| == k && Has(t, q) && Has(t, c) && 0 < p[k] < |At(t, c).children|
    ensures q == c + ([p[k] - 1] + q[k + 1..])
    ensures IsLeftmost(At(t, c).children[p[k]], p[k..][1..]) && IsRightmost(At(t, c).children[p[k] - 1], q[k + 1..])
    ensures FirstLeaf(At(t, c).children[p[k]]) == At(t, p).value
    ensures At(t, q) == Tree(LastLeaf(At(t, c).children[p[k] - 1]), [])
    ensures At(t, q).value.end == At(t, p).value.begin
  {
    FollowsMeans(t, p, q, k);
    PartAt(p, q, c, k);
    hide Leaves, At, Has, RangesOk;
    SubtreeOk(t, c);
    ChildOk(At(t, c), p[k]);
    LeafWithin(At(t, c).children[p[k] - 1]);
  }

  /** The second half of an edit towards the previous leaf, after a first half that left x at the ancestor. */
  lemma BackRest(t: Tree, p: Path, q: Path, k: nat, x: Tree)
    requires FollowsAt(t, p, q, k) && IsLeaf(At(t, p)) && p[k] < |x.children|
    requires x.children[p[k]] == At(t, p[..k]).children[p[k]]
    ensures var c, j, n, e := p[..k], p[k], |p| - 1, At(t, p).value.end;
            var u := Put(t, c, x);
            && Has(u, p[..n])
            && var v := BeginsFrom(u, p[..n], k + 1, e);
               && Has(v, p[..n]) && p[n] < |At(v, p[..n]).children|
               && Put(v, p[..n], WithoutChild(At(v, p[..n]), p[n]))
                  == Put(t, c, x.(children := x.children[..j] + WithoutFirst(x.children[j]) + x.children[j + 1..]))
  {
    hide BeginsFrom, Put, At, Has, Leaves, BackTail, BackReady, IsLeftmost, WithoutFirst, WithoutChild, IsLeaf;
    FollowsMeans(t, p, q, k);
    var c, s, e := p[..k], p[k..], At(t, p).value.end;
    PathInTwo(p, k);
    BackTailIs(x, s);
    BackTailAt(t, c, x, s, e);
  }

  lemma MergedFacts(t: Tree, p: Path, q: Path, k: nat)
    requires RangesOk(t) && FollowsAt(t, p, q, k) && IsLeaf(At(t, p))
    ensures MergedIntoPrevious(t, Put(t, p[..k], MergedBack(At(t, p[..k]), p[k])), p, q, k)
  {
    FollowsMeans(t, p, q, k);
    var c, j := p[..k], p[k];
    var a := At(t, c);
    hide Put, At, Has, Leaves, RangesOk, FollowsAt, MergedBack, LeavesReplaced;
    SubtreeOk(t, c);
    MergedBackOk(a, j);
    EditOk(t, c, MergedBack(a, j));
    LeavesMergedBack(a, j);
    var l, r := At(t, q).value, At(t, p).value;
    LeavesReplacedAt(t, c, MergedBack(a, j), l, r, [l.(end := r.end)] + EmptiedFirst(a.children[j]));
  }

  // ----- grouping

  /** The tree before and after a leaf p was grouped with the leaf q before it: all leaves are kept. */
  ghost predicate GroupedWithPrevious(t: Tree, u: Tree, p: Path, q: Path, k: nat) {
    && FollowsAt(t, p, q, k) && Has(t, q)
    && u == Put(t, p[..k], GroupedBack(At(t, p[..k]), p[k]))
    && RangesOk(u) && u.value == t.value
    && var l, r := At(t, q).value, At(t, p).value;
       && LeavesReplaced(Leaves(t), Leaves(u), l, r, [l, r] + EmptiedFirst(At(t, p[..k]).children[p[k]]))
       && Has(u, q) && At(u, q) == Tree(l.(end := r.end), [Tree(l, []), Tree(r, [])])
  }

  /** Two new leaves below the last leaf of child j, after the edge of that child moved. */
  lemma GroupPut(t: Tree, c: Path, j: nat, r: Path, line: Line)
    requires Has(t, c) && j < |At(t, c).children| && IsRightmost(At(t, c).children[j], r)
    ensures var a := At(t, c); var l := LastLeaf(a.children[j]);
            var u := Put(t, c, WithChild(a, j, ExtendLast(a.children[j], line.end)));
            var q := c + ([j] + r);
            && Has(u, q) && At(u, q) == Tree(l.(end := line.end), [])
            && Put(u, q, Tree(l.(end := line.end), [Tree(l, []), Tree(line, [])]))
               == Put(t, c, WithChild(a, j, GroupLast(a.children[j], line)))
  {
    hide Has, At, Put, Leaves, IsRightmost, ExtendLast, GroupLast, LastLeaf;
    var a := At(t, c);
    var y := ExtendLast(a.children[j], line.end);
    EndsToLast(a.children[j], r, line.end);
    GroupIs(a.children[j], r, line);
    var l := LastLeaf(a.children[j]);
    var z := Tree(l.(end := line.end), [Tree(l, []), Tree(line, [])]);
    var x := WithChild(a, j, y);
    ChildPut(x, j, r, z);
    LiftAt(t, c, x, [j] + r);
    LiftPut(t, c, x, [j] + r, z);
    assert x.children[j := GroupLast(a.children[j], line)] == a.children[j := GroupLast(a.children[j], line)];
  }

  lemma GroupParts(a: Tree, j: nat)
    requires 0 < j < |a.children|
    ensures var x := WithChild(a, j - 1, GroupLast(a.children[j - 1], FirstLeaf(a.children[j])));
            x.(children := x.children[..j] + WithoutFirst(x.children[j]) + x.children[j + 1..]) == GroupedBack(a, j)
  {
    hide Leaves, GroupLast, WithoutFirst;
    var y := GroupLast(a.children[j - 1], FirstLeaf(a.children[j]));
    assert a.children[j - 1 := y][..j] == a.children[..j - 1] + [y];
  }

  lemma {:induction false} GroupAt(t: Tree, r: Path, x: Line)
    requires IsRightmost(t, r)
    ensures var u, l := GroupLast(t, x), LastLeaf(t);
            Has(u, r) && At(u, r) == Tree(l.(end := x.end), [Tree(l, []), Tree(x, [])])
    decreases |r|
  {
    if r != [] {
      GroupAt(t.children[r[0]], r[1..], x);
      LeavesOfChildren(t);
    }
  }

  lemma GroupedFacts(t: Tree, p: Path, q: Path, k: nat)
    requires RangesOk(t) && FollowsAt(t, p, q, k) && IsLeaf(At(t, p))
    ensures GroupedWithPrevious(t, Put(t, p[..k], GroupedBack(At(t, p[..k]), p[k])), p, q, k)
  {
    FollowsMeans(t, p, q, k);
    var c, j := p[..k], p[k];
    var a := At(t, c);
    assert GroupedBack(a, j).children[j - 1] == GroupLast(a.children[j - 1], FirstLeaf(a.children[j]));
    hide Put, At, Has, Leaves, RangesOk, FollowsAt, GroupedBack, GroupLast, LeavesReplaced, IsRightmost, IsLeftmost;
    SubtreeOk(t, c);
    GroupedBackOk(a, j);
    EditOk(t, c, GroupedBack(a, j));
    LeavesGroupedBack(a, j);
    var l, r := At(t, q).value, At(t, p).value;
    LeavesReplacedAt(t, c, GroupedBack(a, j), l, r, [l, r] + EmptiedFirst(a.children[j]));
    GroupAt(a.children[j - 1], q[k + 1..], r);
    ChildPut(GroupedBack(a, j), j - 1, q[k + 1..], a);
    LiftAt(t, c, GroupedBack(a, j), [j - 1] + q[k + 1..]);
  }

  // ----- merging into the next leaf

  /** The tree before and after a leaf p was merged into the leaf q after it. */
  ghost predicate MergedIntoNext(t: Tree, u: Tree, p: Path, q: Path, k: nat) {
    && PrecedesAt(t, p, q, k) && Has(t, q)
    && u == Put(t, p[..k], MergedForward(At(t, p[..k]), p[k]))
    && RangesOk(u) && u.value == t.value
    && var l, r := At(t, p).value, At(t, q).value;
       LeavesReplaced(Leaves(t), Leaves(u), l, r, EmptiedLast(At(t, p[..k]).children[p[k]]) + [r.(begin := l.begin)])
  }

  lemma {:induction false} RightmostIsLast(t: Tree, p: Path, k: nat)
    requires IsRightmost(t, p) && k < |p| && Has(t, p[..k])
    ensures p[k] + 1 == |At(t, p[..k]).children|
    decreases |p|
  {
    if k > 0 {
      assert p[..k][1..] == p[1..][..k - 1];
      RightmostIsLast(t.children[p[0]], p[1..], k - 1);
    }
  }

  lemma NotTheLast(t: Tree, p: Path, q: Path, k: nat)
    requires PrecedesAt(t, p, q, k)
    ensures !IsRightmost(t, p)
  {
    if IsRightmost(t, p) {
      RightmostIsLast(t, p, k);
    }
  }

  lemma ForwardParts(a: Tree, j: nat)
    requires j + 1 < |a.children|
    ensures var x := WithChild(a, j + 1, ExtendFirst(a.children[j + 1], LastLeaf(a.children[j]).begin));
            x.(children := x.children[..j] + WithoutLast(x.children[j]) + x.children[j + 1..]) == MergedForward(a, j)
  {
    hide Leaves, ExtendFirst, WithoutLast;
    var y := ExtendFirst(a.children[j + 1], LastLeaf(a.children[j]).begin);
    assert a.children[j + 1 := y][j + 1..] == [y] + a.children[j + 2..];
  }

  /** A leaf and the leaf after it are contiguous, below the ancestor where their paths part. */
  lemma PlaceOfNext(t: Tree, p: Path, q: Path, c: Path, k: nat)
    requires RangesOk(t) && PrecedesAt(t, p, q, k) && IsLeaf(At(t, p)) && IsNearestCommonAncestor(p, q, c)
    ensures k < |p| && c == p[..k] && |c| == k && Has(t, q) && Has(t, c) && p[k] + 1 < |At(t, c).children|
    ensures q == c + ([p[k] + 1] + q[k + 1..])
    ensures IsRightmost(At(t, c).children[p[k]], p[k..][1..]) && IsLeftmost(At(t, c).children[p[k] + 1], q[k + 1..])
    ensures LastLeaf(At(t, c).children[p[k]]) == At(t, p).value
    ensures At(t, q) == Tree(FirstLeaf(At(t, c).children[p[k] + 1]), [])
    ensures At(t, p).value.end == At(t, q).value.begin
  {
    PrecedesMeans(t, p, q, k);
    PartAt(p, q, c, k);
    hide Leaves, At, Has, RangesOk;
    SubtreeOk(t, c);
    ChildOk(At(t, c), p[k] + 1);
    LeafWithin(At(t, c).children[p[k]]);
  }

  /** The second half of an edit towards the next leaf, after a first half that left x at the ancestor. */
  lemma ForwardRest(t: Tree, p: Path, q: Path, k: nat, x: Tree)
    requires PrecedesAt(t, p, q, k) && IsLeaf(At(t, p)) && p[k] < |x.children|
    requires x.children[p[k]] == At(t, p[..k]).children[p[k]]
    ensures var c, j, n, b := p[..k], p[k], |p| - 1, At(t, p).value.begin;
            var u := Put(t, c, x);
            && Has(u, p[..n])
            && var v := EndsFrom(u, p[..n], k + 1, b);
               && Has(v, p[..n]) && p[n] < |At(v, p[..n]).children|
               && Put(v, p[..n], WithoutChild(At(v, p[..n]), p[n]))
                  == Put(t, c, x.(children := x.children[..j] + WithoutLast(x.children[j]) + x.children[j + 1..]))
  {
    PrecedesMeans(t, p, q, k);
    ForwardRestAt(t, p, k, x);
  }

  lemma ForwardRestAt(t: Tree, p: Path, k: nat, x: Tree)
    requires k < |p| && Has(t, p[..k]) && p[k] < |x.children| && IsRightmost(x.children[p[k]], p[k..][1..])
    ensures var c, j, n, b := p[..k], p[k], |p| - 1, LastLeaf(x.children[p[k]]).begin;
            var u := Put(t, c, x);
            && Has(u, p[..n])
            && var v := EndsFrom(u, p[..n], k + 1, b);
               && Has(v, p[..n]) && p[n] < |At(v, p[..n]).children|
               && Put(v, p[..n], WithoutChild(At(v, p[..n]), p[n]))
                  == Put(t, c, x.(children := x.children[..j] + WithoutLast(x.children[j]) + x.children[j + 1..]))
  {
    hide EndsFrom, Put, At, Has, ForwardTail, ForwardReady, IsRightmost, WithoutLast, LastLeaf, WithoutChild;
    var c, s, b := p[..k], p[k..], LastLeaf(x.children[p[k]]).begin;
    PathInTwo(p, k);
    ForwardTailIs(x, s);
    ForwardTailAt(t, c, x, s, b);
  }

  /** A path is what leads to its node k and the rest. */
  lemma PathInTwo(p: Path, k: nat)
    requires k < |p|
    ensures p[..k] + p[k..][..|p[k..]| - 1] == p[..|p| - 1]
    ensures p[k..][|p[k..]| - 1] == p[|p| - 1] && p[k..][0] == p[k] && |p[..k]| == k
  {
  }

  lemma ForwardMergedFacts(t: Tree, p: Path, q: Path, k: nat)
    requires RangesOk(t) && PrecedesAt(t, p, q, k) && IsLeaf(At(t, p))
    ensures MergedIntoNext(t, Put(t, p[..k], MergedForward(At(t, p[..k]), p[k])), p, q, k)
  {
    PrecedesMeans(t, p, q, k);
    var c, j := p[..k], p[k];
    var a := At(t, c);
    hide Put, At, Has, Leaves, RangesOk, PrecedesAt, MergedForward, LeavesReplaced;
    SubtreeOk(t, c);
    MergedForwardOk(a, j);
    EditOk(t, c, MergedForward(a, j));
    LeavesMergedForward(a, j);
    var l, r := At(t, p).value, At(t, q).value;
    LeavesReplacedAt(t, c, MergedForward(a, j), l, r, EmptiedLast(a.children[j]) + [r.(begin := l.begin)]);
  }
}

/** Why the trimmed two-ended search finds a vertex of a cheapest path.

    A pass walks the diagonals k = x - y of the edit graph in rounds: round d records on
    each diagonal it visits how far d insertions and deletions reach. A diagonal is
    dropped once the walk leaves the rectangle next to it. Such a drop may also drop
    diagonals that are still inside, so the record is not complete; it is complete on
    every diagonal that a cheapest path uses (predicate Clean), and that is enough. */
module MiddleSnake {
  import Seqs
  import opened EditGraph

  /** d insertions and deletions suffice to reach column x on diagonal k. */
  ghost predicate Reached<T>(a: seq<T>, b: seq<T>, d: int, k: int, x: int) {
    0 <= x && k <= x && Fwd(a, b, x, x - k) <= d
  }

  ghost predicate OnGrid<T>(a: seq<T>, b: seq<T>, k: int, x: int) {
    0 <= x <= |a| && 0 <= x - k <= |b|
  }

  /** Inside the rectangle, d insertions and deletions reach no further than x on diagonal k. */
  ghost predicate Furthest<T>(a: seq<T>, b: seq<T>, d: int, k: int, x: int) {
    forall u :: OnGrid(a, b, k, u) && Fwd(a, b, u, u - k) <= d ==> u <= x
  }

  /** The right edge is reached within d on diagonal k or a lower one. */
  ghost predicate RightEdge<T>(a: seq<T>, b: seq<T>, d: int, k: int) {
    exists y :: 0 <= y <= |b| && Fwd(a, b, |a|, y) <= d && |a| - y <= k
  }

  /** The bottom edge is reached within d on diagonal k or a higher one. */
  ghost predicate BottomEdge<T>(a: seq<T>, b: seq<T>, d: int, k: int) {
    exists x :: 0 <= x <= |a| && Fwd(a, b, x, |b|) <= d && k <= x - |b|
  }

  /** No edge vertex reached within d makes diagonal k pointless. */
  ghost predicate Clean<T>(a: seq<T>, b: seq<T>, d: int, k: int) {
    !RightEdge(a, b, d, k - 1) && !BottomEdge(a, b, d, k + 1)
  }

  lemma ReachedBoundsDiagonal<T>(a: seq<T>, b: seq<T>, d: int, k: int, x: int)
    requires Reached(a, b, d, k, x)
    ensures -d <= k <= d
  {
    CostBoundsDiagonal(a, b, x, x - k);
  }

  /** A diagonal used by a cheapest path is never dropped. */
  lemma CheapestIsClean<T>(a: seq<T>, b: seq<T>, d: nat, k: int, x: nat)
    requires OnGrid(a, b, k, x)
    requires Fwd(a, b, x, x - k) == d
    requires d + Bwd(a, b, x, x - k) == Distance(a, b)
    ensures Clean(a, b, d, k)
  {
    BackwardsIsMirrored(a, b, Seqs.Reversed(a), Seqs.Reversed(b), |a| - x, |b| - (x - k));
    CostBoundsDiagonal(Seqs.Reversed(a), Seqs.Reversed(b), |a| - x, |b| - (x - k));
    if RightEdge(a, b, d, k - 1) {
      var y :| 0 <= y <= |b| && Fwd(a, b, |a|, y) <= d && |a| - y <= k - 1;
      Triangle(a, b, |a|, y);
    }
    if BottomEdge(a, b, d, k + 1) {
      var x' :| 0 <= x' <= |a| && Fwd(a, b, x', |b|) <= d && k + 1 <= x' - |b|;
      Triangle(a, b, x', |b|);
    }
  }

  // ----- one step of a pass on one diagonal

  /** Leaving the rectangle at diagonal k makes k and everything beyond it pointless. */
  lemma LeftTheGrid<T>(a: seq<T>, b: seq<T>, d: int, k: int, x: int)
    requires Reached(a, b, d, k, x)
    requires d <= Distance(a, b)
    ensures |a| < x ==> x - k <= |b| && RightEdge(a, b, d, k - 1)
    ensures |b| < x - k ==> x <= |a| && BottomEdge(a, b, d, k + 1)
    ensures Clean(a, b, d, k) ==> OnGrid(a, b, k, x)
  {
    var y := x - k;
    if |a| < x {
      BeyondRight(a, b, x, y);
      if |b| < y {
        BeyondBottom(a, b, |a|, y);
      }
      assert Fwd(a, b, |a|, y) <= d && |a| - y <= k - 1;
    }
    if |b| < y {
      BeyondBottom(a, b, x, y);
      assert Fwd(a, b, x, |b|) <= d && k + 1 <= x - |b|;
    }
  }

  /** What the code knows of diagonals k - 1 and k + 1 after round d - 1, when it starts
      diagonal k at x0: m and p are the recorded columns there. */
  ghost predicate Neighbours<T>(a: seq<T>, b: seq<T>, d: int, k: int, m: int, p: int, x0: int) {
    && -d <= k <= d && (k - d) % 2 == 0
    && (k < d ==> p <= x0 && (Clean(a, b, d - 1, k + 1) ==> Furthest(a, b, d - 1, k + 1, p)))
    && (-d < k ==> m + 1 <= x0 && (Clean(a, b, d - 1, k - 1) ==> Furthest(a, b, d - 1, k - 1, m)))
  }

  /** The bottom edge met on diagonal k itself spoils diagonal k - 1, but then diagonal k + 1 reaches it. */
  lemma BottomCorner<T>(a: seq<T>, b: seq<T>, d: nat, k: int, m: int, p: int, x0: int)
    requires 0 < |b| && d <= Distance(a, b)
    requires Neighbours(a, b, d, k, m, p, x0)
    requires Clean(a, b, d, k) && BottomEdge(a, b, d - 1, k)
    ensures |b| + k <= x0
  {
    var x :| 0 <= x <= |a| && Fwd(a, b, x, |b|) <= d - 1 && k <= x - |b|;
    assert x == |b| + k;
    CostParity(a, b, x, |b|);
    assert Fwd(a, b, x, |b|) <= d - 2;
    StepDiffersByOne(a, b, x, |b| - 1);
    assert Clean(a, b, d - 1, k + 1) by {
      assert x < |a|;
    }
    CostBoundsDiagonal(a, b, x, |b| - 1);
    assert OnGrid(a, b, k + 1, x);
  }

  lemma RightCorner<T>(a: seq<T>, b: seq<T>, d: nat, k: int, m: int, p: int, x0: int)
    requires 0 < |a| && d <= Distance(a, b)
    requires Neighbours(a, b, d, k, m, p, x0)
    requires Clean(a, b, d, k) && RightEdge(a, b, d - 1, k)
    ensures |a| <= x0
  {
    var y :| 0 <= y <= |b| && Fwd(a, b, |a|, y) <= d - 1 && |a| - y <= k;
    assert y == |a| - k;
    CostParity(a, b, |a|, y);
    assert Fwd(a, b, |a|, y) <= d - 2;
    StepDiffersByOne(a, b, |a| - 1, y);
    assert Clean(a, b, d - 1, k - 1) by {
      assert y < |b|;
    }
    CostBoundsDiagonal(a, b, |a| - 1, y);
    assert OnGrid(a, b, k - 1, |a| - 1);
  }

  ghost predicate Common<T>(a: seq<T>, b: seq<T>, k: int, t: int) {
    Match(a, b, t, t - k)
  }

  /** The columns x0 .. x of diagonal k are a maximal run of common tokens. */
  ghost predicate Snake<T>(a: seq<T>, b: seq<T>, k: int, x0: int, x: int) {
    && 0 <= x0 <= x && k <= x0
    && (forall t :: x0 <= t < x ==> Common(a, b, k, t))
    && !Common(a, b, k, x)
  }

  lemma {:induction false} NoFurther<T>(
      a: seq<T>, b: seq<T>, d: nat, k: int, m: int, p: int, x0: int, x: int, u: int)
    requires 0 < |a| && 0 < |b| && d <= Distance(a, b)
    requires Neighbours(a, b, d, k, m, p, x0) && Snake(a, b, k, x0, x)
    requires Clean(a, b, d, k)
    requires OnGrid(a, b, k, u) && Fwd(a, b, u, u - k) <= d
    ensures u <= x
    decreases u
  {
    var y := u - k;
    if x0 < u {
      if Match(a, b, u - 1, y - 1) {
        NoFurther(a, b, d, k, m, p, x0, x, u - 1);
      } else if Fwd(a, b, u - 1, y) <= d - 1 {
        CostBoundsDiagonal(a, b, u - 1, y);
        assert OnGrid(a, b, k - 1, u - 1);
        if !Clean(a, b, d - 1, k - 1) {
          BottomCorner(a, b, d, k, m, p, x0);
        }
      } else {
        CostBoundsDiagonal(a, b, u, y - 1);
        assert OnGrid(a, b, k + 1, u);
        if !Clean(a, b, d - 1, k + 1) {
          RightCorner(a, b, d, k, m, p, x0);
        }
      }
    }
  }

  lemma StepFurthest<T>(a: seq<T>, b: seq<T>, d: nat, k: int, m: int, p: int, x0: int, x: int)
    requires 0 < |a| && 0 < |b| && d <= Distance(a, b)
    requires Neighbours(a, b, d, k, m, p, x0) && Snake(a, b, k, x0, x)
    ensures Clean(a, b, d, k) ==> Furthest(a, b, d, k, x)
  {
    if Clean(a, b, d, k) {
      forall u | OnGrid(a, b, k, u) && Fwd(a, b, u, u - k) <= d
        ensures u <= x
      {
        NoFurther(a, b, d, k, m, p, x0, x, u);
      }
    }
  }

  lemma {:induction false} SnakeReached<T>(a: seq<T>, b: seq<T>, d: int, k: int, x0: int, x: int)
    requires 0 <= x0 <= x && k <= x0
    requires forall t :: x0 <= t < x ==> Common(a, b, k, t)
    requires Reached(a, b, d, k, x0)
    ensures Reached(a, b, d, k, x)
    decreases x
  {
    if x0 < x {
      SnakeReached(a, b, d, k, x0, x - 1);
      assert Common(a, b, k, x - 1);
      DiagonalMonotone(a, b, x - 1, x - 1 - k);
    }
  }

  /** Starting a diagonal one deletion after the lower, or one insertion after the upper neighbour. */
  lemma StartReached<T>(a: seq<T>, b: seq<T>, d: int, k: int, x: int)
    ensures Reached(a, b, d - 1, k - 1, x) ==> Reached(a, b, d, k, x + 1)
    ensures Reached(a, b, d - 1, k + 1, x) ==> Reached(a, b, d, k, x)
  {
    if Reached(a, b, d - 1, k - 1, x) {
      StepDiffersByOne(a, b, x, x - k + 1);
    }
    if Reached(a, b, d - 1, k + 1, x) {
      StepDiffersByOne(a, b, x, x - k - 1);
    }
  }

  // ----- where the two passes meet

  /** Some vertex of diagonal k is within c1 of the start and within c2 of the end. */
  ghost predicate Meeting<T>(a: seq<T>, b: seq<T>, c1: int, c2: int, k: int) {
    exists u :: OnGrid(a, b, k, u) && Fwd(a, b, u, u - k) <= c1 && Bwd(a, b, u, u - k) <= c2
  }

  lemma MirrorColumn<T>(a: seq<T>, b: seq<T>, ra: seq<T>, rb: seq<T>, k: int, u: int)
    requires IsMirror(a, ra) && IsMirror(b, rb)
    requires OnGrid(a, b, k, u)
    ensures OnGrid(ra, rb, |a| - |b| - k, |a| - u)
    ensures Fwd(ra, rb, |a| - u, |b| - (u - k)) == Bwd(a, b, u, u - k)
    ensures Bwd(ra, rb, |a| - u, |b| - (u - k)) == Fwd(a, b, u, u - k)
  {
    BackwardsIsMirrored(a, b, ra, rb, |a| - u, |b| - (u - k));
    MirrorSymmetric(a, ra);
    MirrorSymmetric(b, rb);
    BackwardsIsMirrored(ra, rb, a, b, u, u - k);
  }

  /** Overlapping records on one diagonal give a vertex of a cheapest path. */
  lemma OverlapIsCheapest<T>(
      a: seq<T>, b: seq<T>, ra: seq<T>, rb: seq<T>, c1: nat, c2: nat, k: int, x1: int, x2: int)
    requires IsMirror(a, ra) && IsMirror(b, rb)
    requires c1 + c2 <= Distance(a, b)
    requires Reached(a, b, c1, k, x1)
    requires Reached(ra, rb, c2, |a| - |b| - k, x2)
    requires |a| - x2 <= x1
    requires OnGrid(a, b, k, x1) || OnGrid(ra, rb, |a| - |b| - k, x2)
    ensures OnGrid(a, b, k, x1)
    ensures Fwd(a, b, x1, x1 - k) == c1 && Bwd(a, b, x1, x1 - k) == c2
    ensures Distance(a, b) == c1 + c2
  {
    hide Fwd, Bwd, Distance;
    if OnGrid(ra, rb, |a| - |b| - k, x2) {
      var u := |a| - x2;
      MirrorColumn(a, b, ra, rb, k, u);
      DiagonalMonotoneBy(a, b, u, u - k, x1 - u);
      Triangle(a, b, u, u - k);
      CheapestIsClean(a, b, c1, k, u);
      LeftTheGrid(a, b, c1, k, x1);
    }
    MirrorColumn(a, b, ra, rb, k, x1);
    DiagonalMonotoneBy(ra, rb, |a| - x1, |b| - (x1 - k), x2 - (|a| - x1));
    Triangle(a, b, x1, x1 - k);
  }

  /** A record is unset, or sound and complete where it matters. */
  ghost predicate Recorded<T>(a: seq<T>, b: seq<T>, d: int, k: int, x: int) {
    && (x == -1 || Reached(a, b, d, k, x))
    && (Clean(a, b, d, k) ==> Furthest(a, b, d, k, x))
  }

  lemma NoOverlapNoMeeting<T>(
      a: seq<T>, b: seq<T>, ra: seq<T>, rb: seq<T>, c1: nat, c2: int, k: int, x1: int, x2: int)
    requires IsMirror(a, ra) && IsMirror(b, rb)
    requires c1 + c2 <= Distance(a, b)
    requires Recorded(a, b, c1, k, x1)
    requires 0 <= c2 ==> Recorded(ra, rb, c2, |a| - |b| - k, x2)
    requires !(x1 != -1 && OnGrid(a, b, k, x1) && x2 != -1
               && OnGrid(ra, rb, |a| - |b| - k, x2) && |a| - x2 <= x1)
    ensures !Meeting(a, b, c1, c2, k)
  {
    var k2 := |a| - |b| - k;
    if Meeting(a, b, c1, c2, k) {
      var u :| OnGrid(a, b, k, u) && Fwd(a, b, u, u - k) <= c1 && Bwd(a, b, u, u - k) <= c2;
      Triangle(a, b, u, u - k);
      CheapestIsClean(a, b, c1, k, u);
      LeftTheGridIfSet(a, b, c1, k, x1);
      MirrorColumn(a, b, ra, rb, k, u);
      DistanceFromEnd(a, b, ra, rb);
      CheapestIsClean(ra, rb, c2, k2, |a| - u);
      LeftTheGridIfSet(ra, rb, c2, k2, x2);
    }
  }

  lemma LeftTheGridIfSet<T>(a: seq<T>, b: seq<T>, d: int, k: int, x: int)
    requires d <= Distance(a, b) && Clean(a, b, d, k) && Recorded(a, b, d, k, x)
    ensures x != -1 ==> OnGrid(a, b, k, x)
  {
    if x != -1 { LeftTheGrid(a, b, d, k, x); }
  }

  lemma NoMeetingNotCheapest<T>(a: seq<T>, b: seq<T>, c1: int, c2: int)
    requires 0 <= c1 <= Distance(a, b)
    requires c1 + c2 <= Distance(a, b)
    requires forall k :: Clean(a, b, c1, k) && -c1 <= k <= c1 && (k - c1) % 2 == 0 ==> !Meeting(a, b, c1, c2, k)
    ensures c1 + c2 < Distance(a, b)
  {
    if c1 + c2 == Distance(a, b) && 0 <= c2 {
      var x, y := Waypoint(a, b, c1);
      var k: int := x - y;
      assert OnGrid(a, b, k, x) && y == x - k;
      CheapestIsClean(a, b, c1, k, x);
      CostBoundsDiagonal(a, b, x, y);
      CostParity(a, b, x, y);
      assert Meeting(a, b, c1, c2, k);
    }
  }

  /** Every round up to the distance has a diagonal worth visiting. */
  lemma SomeCleanDiagonal<T>(a: seq<T>, b: seq<T>, d: int) returns (k: int)
    requires 0 <= d <= Distance(a, b)
    ensures -d <= k <= d && (k - d) % 2 == 0 && Clean(a, b, d, k)
  {
    var x: int, y: int := Waypoint(a, b, d);
    k := x - y;
    CheapestIsClean(a, b, d, k, x);
    CostBoundsDiagonal(a, b, x, y);
    CostParity(a, b, x, y);
  }

  /** Sequences without a common first or last token are at least two edits apart. */
  lemma AtLeastTwoEdits<T>(a: seq<T>, b: seq<T>)
    requires 0 < |a| && 0 < |b|
    requires a[0] != b[0] && a[|a| - 1] != b[|b| - 1]
    ensures 2 <= Distance(a, b)
  {
    assert !Match(a, b, |a| - 1, |b| - 1);
    if Fwd(a, b, |a| - 1, |b|) == 0 {
      FreeMeansEqual(a, b, |a| - 1, |b|);
    }
    if Fwd(a, b, |a|, |b| - 1) == 0 {
      FreeMeansEqual(a, b, |a|, |b| - 1);
    }
  }

  lemma {:induction false} FreeMeansEqual<T>(a: seq<T>, b: seq<T>, x: nat, y: nat)
    requires Fwd(a, b, x, y) == 0
    ensures x == y
    ensures 0 < x ==> Match(a, b, 0, 0)
  {
    if 1 < x && 0 < y {
      FreeMeansEqual(a, b, x - 1, y - 1);
    } else if 0 < x && 0 < y {
      FreeMeansEqual(a, b, x - 1, y - 1);
    }
  }
}

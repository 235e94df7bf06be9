/** The edit graph of two token sequences, as in Myers 1986, "An O(ND) Difference
    Algorithm and Its Variations". A vertex (x, y) stands for the prefixes a[..x] and
    b[..y]; a step right deletes a token of a, a step down inserts a token of b, and a
    diagonal step keeps a token the two have in common. Only horizontal and vertical
    steps cost anything. */
module EditGraph {
  import Seqs

  predicate Match<T(==)>(a: seq<T>, b: seq<T>, x: int, y: int) {
    0 <= x < |a| && 0 <= y < |b| && a[x] == b[y]
  }

  function Min(i: int, j: int): int { if i <= j then i else j }

  function Max(i: int, j: int): int { if i <= j then j else i }

  /** The cost of the cheapest path from (0, 0) to (x, y). The graph is extended beyond
      the rectangle |a| by |b|, where no diagonal steps exist: the search walks there. */
  ghost function Fwd<T>(a: seq<T>, b: seq<T>, x: nat, y: nat): nat
    decreases x + y
  {
    if x == 0 then y
    else if y == 0 then x
    else if Match(a, b, x - 1, y - 1) then Fwd(a, b, x - 1, y - 1)
    else 1 + Min(Fwd(a, b, x - 1, y), Fwd(a, b, x, y - 1))
  }

  /** The cost of the cheapest path from (x, y) to (|a|, |b|). */
  ghost function Bwd<T>(a: seq<T>, b: seq<T>, x: nat, y: nat): nat
    requires x <= |a| && y <= |b|
    decreases |a| - x + |b| - y
  {
    if x == |a| then |b| - y
    else if y == |b| then |a| - x
    else if Match(a, b, x, y) then Bwd(a, b, x + 1, y + 1)
    else 1 + Min(Bwd(a, b, x + 1, y), Bwd(a, b, x, y + 1))
  }

  /** The number of insertions and deletions needed to turn a into b. */
  ghost function Distance<T>(a: seq<T>, b: seq<T>): nat {
    Fwd(a, b, |a|, |b|)
  }

  // ----- neighbouring vertices

  lemma {:induction false} StepDiffersByOne<T>(a: seq<T>, b: seq<T>, x: nat, y: nat)
    ensures Fwd(a, b, x, y) - 1 <= Fwd(a, b, x + 1, y) <= Fwd(a, b, x, y) + 1
    ensures Fwd(a, b, x, y) - 1 <= Fwd(a, b, x, y + 1) <= Fwd(a, b, x, y) + 1
    decreases x + y
  {
    if 0 < x { StepDiffersByOne(a, b, x - 1, y); }
    if 0 < y { StepDiffersByOne(a, b, x, y - 1); }
  }

  lemma DiagonalMonotone<T>(a: seq<T>, b: seq<T>, x: nat, y: nat)
    ensures Fwd(a, b, x, y) <= Fwd(a, b, x + 1, y + 1)
    ensures Match(a, b, x, y) ==> Fwd(a, b, x, y) == Fwd(a, b, x + 1, y + 1)
  {
    StepDiffersByOne(a, b, x, y);
  }

  lemma {:induction false} DiagonalMonotoneBy<T>(a: seq<T>, b: seq<T>, x: nat, y: nat, t: nat)
    ensures Fwd(a, b, x, y) <= Fwd(a, b, x + t, y + t)
    decreases t
  {
    if 0 < t {
      DiagonalMonotoneBy(a, b, x, y, t - 1);
      DiagonalMonotone(a, b, x + t - 1, y + t - 1);
    }
  }

  /** Every horizontal or vertical step changes the diagonal by one. */
  lemma {:induction false} CostBoundsDiagonal<T>(a: seq<T>, b: seq<T>, x: nat, y: nat)
    ensures x - y <= Fwd(a, b, x, y)
    ensures y - x <= Fwd(a, b, x, y)
    decreases x + y
  {
    if 0 < x && 0 < y {
      CostBoundsDiagonal(a, b, x - 1, y - 1);
      CostBoundsDiagonal(a, b, x - 1, y);
      CostBoundsDiagonal(a, b, x, y - 1);
    }
  }

  /** The cost comes from one of the three neighbours. */
  lemma FwdFrom<T>(a: seq<T>, b: seq<T>, x: nat, y: nat)
    requires 0 < x && 0 < y
    ensures Fwd(a, b, x, y) == Fwd(a, b, x - 1, y - 1) || Fwd(a, b, x, y) == Fwd(a, b, x - 1, y) + 1
            || Fwd(a, b, x, y) == Fwd(a, b, x, y - 1) + 1
  {
  }

  lemma {:induction false} CostParity<T>(a: seq<T>, b: seq<T>, x: nat, y: nat)
    ensures (Fwd(a, b, x, y) + x + y) % 2 == 0
    decreases x + y
  {
    if x == 0 || y == 0 {
      assert Fwd(a, b, x, y) == x + y;
    } else {
      hide Fwd;
      FwdFrom(a, b, x, y);
      if Fwd(a, b, x, y) == Fwd(a, b, x - 1, y - 1) {
        CostParity(a, b, x - 1, y - 1);
      } else if Fwd(a, b, x, y) == Fwd(a, b, x - 1, y) + 1 {
        CostParity(a, b, x - 1, y);
      } else {
        CostParity(a, b, x, y - 1);
      }
    }
  }

  lemma {:induction false} CostAtMostAll<T>(a: seq<T>, b: seq<T>, x: nat, y: nat)
    ensures Fwd(a, b, x, y) <= x + y
    decreases x + y
  {
    if 0 < x && 0 < y {
      CostAtMostAll(a, b, x - 1, y - 1);
      CostAtMostAll(a, b, x - 1, y);
      CostAtMostAll(a, b, x, y - 1);
    }
  }

  // ----- beyond the rectangle

  lemma {:induction false} BeyondRight<T>(a: seq<T>, b: seq<T>, x: nat, y: nat)
    requires |a| <= x
    ensures Fwd(a, b, |a|, y) + (x - |a|) <= Fwd(a, b, x, y)
    decreases x + y
  {
    if |a| < x {
      BeyondRight(a, b, x - 1, y);
      if 0 < y {
        BeyondRight(a, b, x, y - 1);
        StepDiffersByOne(a, b, |a|, y - 1);
      } else {
        CostAtMostAll(a, b, |a|, 0);
      }
    }
  }

  lemma {:induction false} BeyondBottom<T>(a: seq<T>, b: seq<T>, x: nat, y: nat)
    requires |b| <= y
    ensures Fwd(a, b, x, |b|) + (y - |b|) <= Fwd(a, b, x, y)
    decreases x + y
  {
    if |b| < y {
      BeyondBottom(a, b, x, y - 1);
      if 0 < x {
        BeyondBottom(a, b, x - 1, y);
        StepDiffersByOne(a, b, x - 1, |b|);
      } else {
        CostAtMostAll(a, b, 0, |b|);
      }
    }
  }

  // ----- paths from the end are paths of the reversed sequences

  ghost predicate IsMirror<T>(s: seq<T>, r: seq<T>) {
    |r| == |s| && forall i :: 0 <= i < |s| ==> r[i] == s[|s| - 1 - i]
  }

  lemma MirrorSymmetric<T>(s: seq<T>, r: seq<T>)
    requires IsMirror(s, r)
    ensures IsMirror(r, s)
  {
    forall i | 0 <= i < |r| ensures s[i] == r[|r| - 1 - i] {
      assert s[i] == s[|s| - 1 - (|s| - 1 - i)];
    }
  }

  lemma {:induction false} BackwardsIsMirrored<T>(a: seq<T>, b: seq<T>, ra: seq<T>, rb: seq<T>, i: nat, j: nat)
    requires IsMirror(a, ra) && IsMirror(b, rb)
    requires i <= |a| && j <= |b|
    ensures Fwd(ra, rb, i, j) == Bwd(a, b, |a| - i, |b| - j)
    decreases i + j
  {
    if 0 < i && 0 < j {
      BackwardsIsMirrored(a, b, ra, rb, i - 1, j - 1);
      BackwardsIsMirrored(a, b, ra, rb, i - 1, j);
      BackwardsIsMirrored(a, b, ra, rb, i, j - 1);
      assert Match(ra, rb, i - 1, j - 1) == Match(a, b, |a| - i, |b| - j);
    }
  }

  // ----- a path through (x, y) costs at least the distance

  lemma {:induction false} Triangle<T>(a: seq<T>, b: seq<T>, x: nat, y: nat)
    requires x <= |a| && y <= |b|
    ensures Distance(a, b) <= Fwd(a, b, x, y) + Bwd(a, b, x, y)
    decreases |a| - x + |b| - y
  {
    StepDiffersByOne(a, b, x, y);
    DiagonalMonotone(a, b, x, y);
    if x < |a| && y < |b| {
      if Match(a, b, x, y) {
        Triangle(a, b, x + 1, y + 1);
      } else {
        Triangle(a, b, x + 1, y);
        Triangle(a, b, x, y + 1);
      }
    } else if x < |a| {
      Triangle(a, b, x + 1, y);
    } else if y < |b| {
      Triangle(a, b, x, y + 1);
    }
  }

  lemma MirrorNoCheaper<T>(a: seq<T>, b: seq<T>, ra: seq<T>, rb: seq<T>)
    requires IsMirror(a, ra) && IsMirror(b, rb)
    ensures Distance(a, b) <= Distance(ra, rb) == Bwd(a, b, 0, 0)
  {
    Triangle(a, b, 0, 0);
    BackwardsIsMirrored(a, b, ra, rb, |a|, |b|);
  }

  /** The distance counted from either end is the same. */
  lemma DistanceFromEnd<T>(a: seq<T>, b: seq<T>, ra: seq<T>, rb: seq<T>)
    requires IsMirror(a, ra) && IsMirror(b, rb)
    ensures Distance(ra, rb) == Distance(a, b) == Bwd(a, b, 0, 0)
  {
    MirrorNoCheaper(a, b, ra, rb);
    MirrorSymmetric(a, ra);
    MirrorSymmetric(b, rb);
    MirrorNoCheaper(ra, rb, a, b);
  }

  /** Some cheapest path has spent exactly c at some vertex, for every c up to the distance. */
  lemma {:induction false} Waypoint<T>(a: seq<T>, b: seq<T>, c: nat) returns (x: nat, y: nat)
    requires c <= Distance(a, b)
    ensures x <= |a| && y <= |b|
    ensures Fwd(a, b, x, y) == c
    ensures Bwd(a, b, x, y) == Distance(a, b) - c
    decreases c
  {
    if c == 0 {
      x, y := 0, 0;
      DistanceFromEnd(a, b, Seqs.Reversed(a), Seqs.Reversed(b));
    } else {
      x, y := Waypoint(a, b, c - 1);
      while Match(a, b, x, y)
        invariant x <= |a| && y <= |b|
        invariant Fwd(a, b, x, y) == c - 1
        invariant Bwd(a, b, x, y) == Distance(a, b) - (c - 1)
        decreases |a| - x
      {
        DiagonalMonotone(a, b, x, y);
        x, y := x + 1, y + 1;
      }
      StepDiffersByOne(a, b, x, y);
      if x < |a| && (y == |b| || Bwd(a, b, x + 1, y) <= Bwd(a, b, x, y + 1)) {
        x := x + 1;
      } else {
        y := y + 1;
      }
      Triangle(a, b, x, y);
    }
  }
}

/** The record of one pass inside the interleaved vector that the bisecting search keeps:
    the front pass owns the even slots (p == 0), the reverse pass the odd ones (p == 1). */
module SnakeRecord {
  import opened EditGraph
  import opened MiddleSnake

  /** The column recorded on diagonal k, or -1. */
  ghost function Entry(w: seq<int>, offset: int, p: int, k: int): int {
    if 0 <= 2 * (offset + k) + p < |w| then w[2 * (offset + k) + p] else -1
  }

  ghost function Other(p: int): int { 1 - p }

  ghost predicate SameParity(k: int, d: int) { (k - d) % 2 == 0 }

  /** The upper trim never passes a diagonal that matters. */
  ghost predicate TopTrim<T>(a: seq<T>, b: seq<T>, d: int, kEnd: int) {
    kEnd >= 0 && kEnd % 2 == 0 && (kEnd == 0 || RightEdge(a, b, d, d - kEnd + 1))
  }

  ghost predicate BottomTrim<T>(a: seq<T>, b: seq<T>, d: int, kStart: int) {
    kStart >= 0 && kStart % 2 == 0 && (kStart == 0 || BottomEdge(a, b, d, kStart - d - 1))
  }

  /** Round d is over: its diagonals hold sound records, complete on the clean diagonals. */
  ghost predicate RoundDone<T>(a: seq<T>, b: seq<T>, w: seq<int>, offset: int, p: int, d: int) {
    && (forall k {:trigger Entry(w, offset, p, k)} :: SameParity(k, d) ==>
          Entry(w, offset, p, k) == -1 || Reached(a, b, d, k, Entry(w, offset, p, k)))
    && (forall k {:trigger Entry(w, offset, p, k)} :: SameParity(k, d) && -d <= k <= d && Clean(a, b, d, k) ==>
          Furthest(a, b, d, k, Entry(w, offset, p, k)))
  }

  ghost predicate HasNeighbour(w: seq<int>, offset: int, p: int, k: int) {
    Entry(w, offset, p, k - 1) >= 0 || Entry(w, offset, p, k + 1) >= 0
  }

  /** Every diagonal round d will visit has a neighbour set by round d - 1. */
  ghost predicate NeighbourSet(w: seq<int>, offset: int, p: int, d: int, kStart: int, kEnd: int) {
    forall k {:trigger HasNeighbour(w, offset, p, k)} :: SameParity(k, d) && kStart - d <= k <= d - kEnd ==>
      HasNeighbour(w, offset, p, k)
  }

  /** What the slots that round d is about to overwrite may still hold. */
  ghost predicate Leftover<T>(a: seq<T>, b: seq<T>, d: int, k: int, x: int) {
    x == -1 || Reached(a, b, d, k, x) || (d == 1 && k == 1 && x == 0)
  }

  ghost predicate RoundReady<T>(
      a: seq<T>, b: seq<T>, w: seq<int>, offset: int, p: int, d: int, kStart: int, kEnd: int) {
    && TopTrim(a, b, d, kEnd) && BottomTrim(a, b, d, kStart)
    && (d <= 1 ==> kStart == 0 && kEnd == 0)
    && (d == 0 ==> Entry(w, offset, p, 1) == 0
                   && forall k {:trigger Entry(w, offset, p, k)} :: k != 1 ==> Entry(w, offset, p, k) == -1)
    && (forall k {:trigger Entry(w, offset, p, k)} :: SameParity(k, d) ==> Leftover(a, b, d, k, Entry(w, offset, p, k)))
    && (0 < d ==> RoundDone(a, b, w, offset, p, d - 1) && NeighbourSet(w, offset, p, d, kStart, kEnd))
  }

  /** Round d has visited the diagonals from lo up to, not including, k. */
  ghost predicate RoundPartial<T>(
      a: seq<T>, b: seq<T>, w0: seq<int>, w: seq<int>, offset: int, p: int, d: int, lo: int, k: int)
  {
    && |w| == |w0|
    && (forall j {:trigger Entry(w, offset, p, j)} :: !SameParity(j, d) || j < lo || k <= j ==>
          Entry(w, offset, p, j) == Entry(w0, offset, p, j))
    && (forall j {:trigger Entry(w, offset, Other(p), j)} :: Entry(w, offset, Other(p), j) == Entry(w0, offset, Other(p), j))
    && (forall j {:trigger Entry(w, offset, p, j)} :: SameParity(j, d) && lo <= j < k ==>
          Reached(a, b, d, j, Entry(w, offset, p, j)) && Recorded(a, b, d, j, Entry(w, offset, p, j)))
  }

  /** The start of diagonal k as the code picks it from its two neighbours. */
  function StartColumn(d: int, k: int, below: int, above: int): int {
    if k == -d || (k != d && below < above) then above else below + 1
  }

  lemma OriginReached<T>(a: seq<T>, b: seq<T>)
    ensures Reached(a, b, 0, 0, 0)
  {
  }

  lemma StartIsSound<T>(
      a: seq<T>, b: seq<T>, w: seq<int>, offset: int, p: int, d: int, kStart: int, kEnd: int, k: int)
    returns (x0: int)
    requires 0 <= d <= Distance(a, b) && 0 <= kStart && 0 <= kEnd
    requires RoundReady(a, b, w, offset, p, d, kStart, kEnd)
    requires SameParity(k, d) && kStart - d <= k <= d - kEnd
    ensures x0 == StartColumn(d, k, Entry(w, offset, p, k - 1), Entry(w, offset, p, k + 1))
    ensures Reached(a, b, d, k, x0)
    ensures Neighbours(a, b, d, k, Entry(w, offset, p, k - 1), Entry(w, offset, p, k + 1), x0)
  {
    hide Fwd, Distance;
    var m, q := Entry(w, offset, p, k - 1), Entry(w, offset, p, k + 1);
    x0 := StartColumn(d, k, m, q);
    if 0 < d {
      assert HasNeighbour(w, offset, p, k);
      if m != -1 { ReachedBoundsDiagonal(a, b, d - 1, k - 1, m); }
      if q != -1 { ReachedBoundsDiagonal(a, b, d - 1, k + 1, q); }
      StartReached(a, b, d, k, m);
      StartReached(a, b, d, k, q);
    } else {
      OriginReached(a, b);
    }
  }

  /** The two slots next to the one for diagonal k hold what round d - 1 left there. */
  lemma StartFromSlots<T>(
      a: seq<T>, b: seq<T>, w0: seq<int>, w: seq<int>, offset: int, p: int, d: int, kStart: int, kEnd: int, k: int)
    returns (x0: int)
    requires 0 <= d <= Distance(a, b) && 0 <= kStart && 0 <= kEnd
    requires RoundReady(a, b, w0, offset, p, d, kStart, kEnd)
    requires SameParity(k, d) && kStart - d <= k <= d - kEnd
    requires RoundPartial(a, b, w0, w, offset, p, d, kStart - d, k)
    requires 0 <= 2 * (offset + k) + p - 2 && 2 * (offset + k) + p + 2 < |w|
    ensures x0 == StartColumn(d, k, w[2 * (offset + k) + p - 2], w[2 * (offset + k) + p + 2])
    ensures Reached(a, b, d, k, x0)
    ensures Neighbours(a, b, d, k, w[2 * (offset + k) + p - 2], w[2 * (offset + k) + p + 2], x0)
  {
    x0 := StartIsSound(a, b, w0, offset, p, d, kStart, kEnd, k);
    assert Entry(w, offset, p, k - 1) == Entry(w0, offset, p, k - 1);
    assert Entry(w, offset, p, k + 1) == Entry(w0, offset, p, k + 1);
    assert w[2 * (offset + k) + p - 2] == Entry(w, offset, p, k - 1);
    assert w[2 * (offset + k) + p + 2] == Entry(w, offset, p, k + 1);
  }

  lemma PartialStep<T>(
      a: seq<T>, b: seq<T>, w0: seq<int>, w: seq<int>, w': seq<int>, offset: int, p: int, d: int,
      lo: int, k: int, m: int, q: int, x0: int, x: int)
    requires 0 < |a| && 0 < |b| && 0 <= d <= Distance(a, b) && 0 <= p <= 1
    requires SameParity(k, d) && lo <= k
    requires RoundPartial(a, b, w0, w, offset, p, d, lo, k)
    requires 0 <= 2 * (offset + k) + p < |w|
    requires w' == w[2 * (offset + k) + p := x]
    requires Reached(a, b, d, k, x0)
    requires Neighbours(a, b, d, k, m, q, x0)
    requires Snake(a, b, k, x0, x)
    ensures RoundPartial(a, b, w0, w', offset, p, d, lo, k + 2)
    ensures Reached(a, b, d, k, x) && Recorded(a, b, d, k, x)
  {
    SnakeReached(a, b, d, k, x0, x);
    StepFurthest(a, b, d, k, m, q, x0, x);
    hide Reached, Recorded, Neighbours, Snake, Distance;
    assert Entry(w', offset, p, k) == x;
    forall j ensures j != k ==> Entry(w', offset, p, j) == Entry(w, offset, p, j) {}
    forall j ensures Entry(w', offset, Other(p), j) == Entry(w, offset, Other(p), j) {}
  }

  /** A diagonal beyond a trim is not clean. */
  lemma TrimmedNotClean<T>(a: seq<T>, b: seq<T>, d: int, kStart: int, kEnd: int, k: int)
    requires TopTrim(a, b, d, kEnd) && BottomTrim(a, b, d, kStart)
    requires SameParity(k, d) && -d <= k <= d && Clean(a, b, d, k)
    ensures kStart - d <= k <= d - kEnd
  {
    assert d - kEnd < k ==> d - kEnd + 1 <= k - 1;
    assert k < kStart - d ==> k + 1 <= kStart - d - 1;
  }

  lemma TrimGrows<T>(a: seq<T>, b: seq<T>, d: int, kStart: int, kEnd: int)
    requires TopTrim(a, b, d, kEnd) && BottomTrim(a, b, d, kStart)
    ensures TopTrim(a, b, d + 1, kEnd) && BottomTrim(a, b, d + 1, kStart)
  {
  }

  lemma RoundIsDone<T>(
      a: seq<T>, b: seq<T>, w0: seq<int>, w: seq<int>, offset: int, p: int, d: int,
      kStart0: int, kEnd0: int, kEnd: int, k: int)
    requires 0 <= d <= Distance(a, b)
    requires RoundReady(a, b, w0, offset, p, d, kStart0, kEnd0)
    requires RoundPartial(a, b, w0, w, offset, p, d, kStart0 - d, k)
    requires d - kEnd < k && TopTrim(a, b, d, kEnd)
    requires d == 1 ==> 1 < k
    ensures RoundDone(a, b, w, offset, p, d)
  {
    forall j | SameParity(j, d)
      ensures Entry(w, offset, p, j) == -1 || Reached(a, b, d, j, Entry(w, offset, p, j))
      ensures -d <= j <= d && Clean(a, b, d, j) ==> Furthest(a, b, d, j, Entry(w, offset, p, j))
    {
      if kStart0 - d <= j < k {
      } else {
        assert Entry(w, offset, p, j) == Entry(w0, offset, p, j);
        if -d <= j <= d && Clean(a, b, d, j) {
          TrimmedNotClean(a, b, d, kStart0, kEnd, j);
        }
      }
    }
  }

  lemma RoundLeavesNeighbours<T>(
      a: seq<T>, b: seq<T>, w0: seq<int>, w: seq<int>, offset: int, p: int, d: int,
      kStart0: int, kStart: int, kEnd: int, k: int)
    requires RoundPartial(a, b, w0, w, offset, p, d, kStart0 - d, k)
    requires kStart0 % 2 == 0
    requires SameParity(k, d) && kStart0 - d < k && d - kEnd < k && kStart0 <= kStart
    ensures NeighbourSet(w, offset, p, d + 1, kStart, kEnd)
  {
    forall j | SameParity(j, d + 1) && kStart - (d + 1) <= j <= d + 1 - kEnd
      ensures HasNeighbour(w, offset, p, j)
    {
      if kStart0 - d <= j - 1 {
        assert Reached(a, b, d, j - 1, Entry(w, offset, p, j - 1));
      } else {
        assert Reached(a, b, d, j + 1, Entry(w, offset, p, j + 1));
      }
    }
  }

  lemma RoundLeavesLeftovers<T>(
      a: seq<T>, b: seq<T>, w0: seq<int>, w: seq<int>, offset: int, p: int, d: int,
      kStart0: int, kEnd0: int, lo: int, k: int)
    requires 0 <= d
    requires RoundReady(a, b, w0, offset, p, d, kStart0, kEnd0)
    requires RoundPartial(a, b, w0, w, offset, p, d, lo, k)
    ensures forall j {:trigger Entry(w, offset, p, j)} :: SameParity(j, d + 1) ==>
              Leftover(a, b, d + 1, j, Entry(w, offset, p, j))
  {
    forall j {:trigger Entry(w, offset, p, j)} | SameParity(j, d + 1)
      ensures Leftover(a, b, d + 1, j, Entry(w, offset, p, j))
    {
      assert Entry(w, offset, p, j) == Entry(w0, offset, p, j);
    }
  }

  lemma RoundEnds<T>(
      a: seq<T>, b: seq<T>, w0: seq<int>, w: seq<int>, offset: int, p: int, d: int,
      kStart0: int, kEnd0: int, kStart: int, kEnd: int, k: int)
    requires 0 <= d <= Distance(a, b)
    requires RoundReady(a, b, w0, offset, p, d, kStart0, kEnd0)
    requires RoundPartial(a, b, w0, w, offset, p, d, kStart0 - d, k)
    requires SameParity(k, d) && kStart0 - d < k && d - kEnd < k
    requires kStart0 <= kStart && TopTrim(a, b, d, kEnd) && BottomTrim(a, b, d, kStart)
    requires d == 0 ==> kStart == 0 && kEnd == 0
    requires d == 1 ==> 1 < k
    ensures RoundDone(a, b, w, offset, p, d)
    ensures RoundReady(a, b, w, offset, p, d + 1, kStart, kEnd)
  {
    RoundIsDone(a, b, w0, w, offset, p, d, kStart0, kEnd0, kEnd, k);
    RoundLeavesNeighbours(a, b, w0, w, offset, p, d, kStart0, kStart, kEnd, k);
    RoundLeavesLeftovers(a, b, w0, w, offset, p, d, kStart0, kEnd0, kStart0 - d, k);
    TrimGrows(a, b, d, kStart, kEnd);
  }

  lemma ReadyFrame<T>(
      a: seq<T>, b: seq<T>, w0: seq<int>, w: seq<int>, offset: int, p: int, d: int, kStart: int, kEnd: int)
    requires RoundReady(a, b, w0, offset, p, d, kStart, kEnd)
    requires forall j {:trigger Entry(w, offset, p, j)} :: Entry(w, offset, p, j) == Entry(w0, offset, p, j)
    ensures RoundReady(a, b, w, offset, p, d, kStart, kEnd)
  {
    if 0 < d {
      forall k | SameParity(k, d) && kStart - d <= k <= d - kEnd
        ensures HasNeighbour(w, offset, p, k)
      {
        assert HasNeighbour(w0, offset, p, k);
      }
      forall k {:trigger Entry(w, offset, p, k)} | SameParity(k, d - 1) && -(d - 1) <= k <= d - 1 && Clean(a, b, d - 1, k)
        ensures Furthest(a, b, d - 1, k, Entry(w, offset, p, k))
      {
        assert Entry(w, offset, p, k) == Entry(w0, offset, p, k);
      }
    }
  }

  lemma DoneFrame<T>(a: seq<T>, b: seq<T>, w0: seq<int>, w: seq<int>, offset: int, p: int, d: int)
    requires RoundDone(a, b, w0, offset, p, d)
    requires forall j {:trigger Entry(w, offset, p, j)} :: Entry(w, offset, p, j) == Entry(w0, offset, p, j)
    ensures RoundDone(a, b, w, offset, p, d)
  {
    forall k {:trigger Entry(w, offset, p, k)} | SameParity(k, d) && -d <= k <= d && Clean(a, b, d, k)
      ensures Furthest(a, b, d, k, Entry(w, offset, p, k))
    {
      assert Entry(w, offset, p, k) == Entry(w0, offset, p, k);
    }
  }

  /** The vector as the search sets it up. */
  lemma FirstRoundReady<T>(a: seq<T>, b: seq<T>, w: seq<int>, offset: int, p: int)
    requires 0 <= p <= 1 && 0 <= offset && 2 * offset + 3 < |w|
    requires forall i :: 0 <= i < |w| ==> w[i] == if i == 2 * offset + 2 || i == 2 * offset + 3 then 0 else -1
    ensures RoundReady(a, b, w, offset, p, 0, 0, 0)
  {
    assert 2 * (offset + 1) + p == 2 * offset + 2 + p;
  }

  /** Round d of the other pass is over, or d == -1 and it has not started. */
  ghost predicate OtherDone<T>(ra: seq<T>, rb: seq<T>, w: seq<int>, offset: int, p: int, c: int) {
    0 <= c ==> RoundDone(ra, rb, w, offset, p, c)
  }

  /** A visited diagonal without an overlap carries no meeting of cost c1 + c2. */
  lemma NoOverlapHere<T>(
      a: seq<T>, b: seq<T>, ra: seq<T>, rb: seq<T>, w: seq<int>, offset: int, p: int,
      c1: int, c2: int, k: int, x1: int)
    requires IsMirror(a, ra) && IsMirror(b, rb)
    requires 0 <= c1 && c1 + c2 <= Distance(a, b)
    requires (k - c1) % 2 == 0 && (|a| - |b| - c1 - c2) % 2 == 0
    requires Recorded(a, b, c1, k, x1)
    requires OtherDone(ra, rb, w, offset, p, c2)
    requires var k2 := |a| - |b| - k; var x2 := Entry(w, offset, p, k2);
             -c2 <= k2 <= c2 ==> !(x1 != -1 && OnGrid(a, b, k, x1) && x2 != -1 && OnGrid(ra, rb, k2, x2) && |a| - x2 <= x1)
    ensures !Meeting(a, b, c1, c2, k)
  {
    var k2 := |a| - |b| - k;
    if -c2 <= k2 <= c2 {
      NoOverlapNoMeeting(a, b, ra, rb, c1, c2, k, x1, Entry(w, offset, p, k2));
    } else if Meeting(a, b, c1, c2, k) {
      var u :| OnGrid(a, b, k, u) && Fwd(a, b, u, u - k) <= c1 && Bwd(a, b, u, u - k) <= c2;
      MirrorColumn(a, b, ra, rb, k, u);
      CostBoundsDiagonal(ra, rb, |a| - u, |b| - (u - k));
    }
  }

  /** The test the code makes on a diagonal inside the rectangle: the other pass has
      recorded a column there (slots offset + k for |k| at most offset only) and the two
      records overlap. */
  ghost predicate Overlap(w: seq<int>, offset: int, p: int, length1: int, k2: int, x1: int) {
    && -offset <= k2 < offset
    && Entry(w, offset, p, k2) != -1
    && x1 >= length1 - Entry(w, offset, p, k2)
  }

  /** One visited diagonal of either pass: an overlap is a vertex of a cheapest path, and
      without one no cheapest path of cost c1 + c2 crosses here. */
  lemma Verdict<T>(
      a: seq<T>, b: seq<T>, ra: seq<T>, rb: seq<T>, w: seq<int>, offset: int, p: int,
      c1: int, c2: int, k: int, x1: int)
    requires IsMirror(a, ra) && IsMirror(b, rb)
    requires 0 <= c1 && -1 <= c2 < offset && c1 + c2 <= Distance(a, b)
    requires (k - c1) % 2 == 0 && (|a| - |b| - c1 - c2) % 2 == 0
    requires Reached(a, b, c1, k, x1) && Recorded(a, b, c1, k, x1)
    requires OtherDone(ra, rb, w, offset, p, c2)
    ensures !(OnGrid(a, b, k, x1) && Overlap(w, offset, p, |a|, |a| - |b| - k, x1)) ==> !Meeting(a, b, c1, c2, k)
    ensures OnGrid(a, b, k, x1) && Overlap(w, offset, p, |a|, |a| - |b| - k, x1) && 0 <= c2 ==>
              var x2 := Entry(w, offset, p, |a| - |b| - k);
              && Fwd(a, b, x1, x1 - k) == c1 && Bwd(a, b, x1, x1 - k) == c2 && Distance(a, b) == c1 + c2
              && Reached(ra, rb, c2, |a| - |b| - k, x2)
  {
    var k2 := |a| - |b| - k;
    if OnGrid(a, b, k, x1) && Overlap(w, offset, p, |a|, k2, x1) {
      if 0 <= c2 {
        OverlapIsCheapest(a, b, ra, rb, c1, c2, k, x1, Entry(w, offset, p, k2));
      }
    } else {
      NoOverlapHere(a, b, ra, rb, w, offset, p, c1, c2, k, x1);
    }
  }

  /** The trims after visiting diagonal k, as the code updates them. */
  lemma TrimStep<T>(a: seq<T>, b: seq<T>, d: int, k: int, x: int, kStart: int, kEnd: int)
    requires 0 <= d <= Distance(a, b) && Reached(a, b, d, k, x) && SameParity(k, d)
    requires TopTrim(a, b, d, kEnd) && BottomTrim(a, b, d, kStart) && kStart - d <= k <= d - kEnd
    ensures |a| < x ==> TopTrim(a, b, d, kEnd + 2) && x - k <= |b| && 0 < d && 2 - d <= k
    ensures |b| < x - k ==> BottomTrim(a, b, d, kStart + 2) && x <= |a| && 0 < d
  {
    LeftTheGrid(a, b, d, k, x);
    if |a| < x {
      BeyondRight(a, b, x, x - k);
      CostBoundsDiagonal(a, b, |a|, x - k);
      assert k - 1 <= d - (kEnd + 2) + 1;
    }
    if |b| < x - k {
      BeyondBottom(a, b, x, x - k);
      assert (kStart + 2) - d - 1 <= k + 1;
    }
  }

  lemma NextParity(k: int, d: int)
    ensures SameParity(k, d) ==> SameParity(k + 2, d)
    ensures SameParity(k, d) ==> !SameParity(k + 1, d)
  {
  }

  /** No visited diagonal from lo up to, not including, k carries a meeting. */
  ghost predicate NoMeetings<T>(a: seq<T>, b: seq<T>, c1: int, c2: int, lo: int, k: int) {
    forall j :: SameParity(j, c1) && lo <= j < k ==> !Meeting(a, b, c1, c2, j)
  }

  lemma NoMeetingsStep<T>(a: seq<T>, b: seq<T>, c1: int, c2: int, lo: int, k: int)
    requires NoMeetings(a, b, c1, c2, lo, k) && SameParity(k, c1) && !Meeting(a, b, c1, c2, k)
    ensures NoMeetings(a, b, c1, c2, lo, k + 2)
  {
    NextParity(k, c1);
  }

  /** A whole round without an overlap excludes c1 + c2 as the distance. */
  lemma RoundExcludes<T>(
      a: seq<T>, b: seq<T>, c1: int, c2: int, kStart: int, kEnd: int, k: int)
    requires 0 <= c1 <= Distance(a, b) && c1 + c2 <= Distance(a, b)
    requires TopTrim(a, b, c1, kEnd) && BottomTrim(a, b, c1, kStart) && c1 - kEnd < k
    requires NoMeetings(a, b, c1, c2, kStart - c1, k)
    ensures c1 + c2 < Distance(a, b)
    ensures (|a| - |b| - c1 - c2) % 2 == 0 ==> c1 + c2 + 2 <= Distance(a, b)
  {
    forall j | Clean(a, b, c1, j) && -c1 <= j <= c1 && (j - c1) % 2 == 0
      ensures !Meeting(a, b, c1, c2, j)
    {
      TrimmedNotClean(a, b, c1, kStart, kEnd, j);
    }
    NoMeetingNotCheapest(a, b, c1, c2);
    CostParity(a, b, |a|, |b|);
  }

  lemma RoundBegins<T>(a: seq<T>, b: seq<T>, w: seq<int>, offset: int, p: int, d: int, c2: int, lo: int)
    ensures RoundPartial(a, b, w, w, offset, p, d, lo, lo)
    ensures NoMeetings(a, b, d, c2, lo, lo)
  {
  }

  /** A round of one pass leaves the record of the other alone. */
  lemma OtherPassKept<T>(
      a: seq<T>, b: seq<T>, ra: seq<T>, rb: seq<T>, w0: seq<int>, w: seq<int>, offset: int, p: int, d: int,
      lo: int, k: int, c: int, kStart: int, kEnd: int)
    requires RoundPartial(a, b, w0, w, offset, p, d, lo, k)
    ensures RoundReady(ra, rb, w0, offset, Other(p), c, kStart, kEnd) ==>
              RoundReady(ra, rb, w, offset, Other(p), c, kStart, kEnd)
    ensures RoundDone(ra, rb, w0, offset, Other(p), d) ==> RoundDone(ra, rb, w, offset, Other(p), d)
  {
    if RoundReady(ra, rb, w0, offset, Other(p), c, kStart, kEnd) {
      ReadyFrame(ra, rb, w0, w, offset, Other(p), c, kStart, kEnd);
    }
    if RoundDone(ra, rb, w0, offset, Other(p), d) {
      DoneFrame(ra, rb, w0, w, offset, Other(p), d);
    }
  }
}

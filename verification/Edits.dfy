/** Edit scripts (external_libs/editscript.h): what they mean, what they cost, and how
    lists of edits are joined. */
module Edits {
  import opened EditGraph
  import Seqs

  datatype Operation = EQUALS | DELETE | INSERT

  /** [start, end) indexes tokens1, or tokens2 for INSERT. */
  datatype Edit = Edit(operation: Operation, start: int, end: int)

  function Slice<T>(s: seq<T>, start: int, end: int): seq<T> {
    if 0 <= start <= end <= |s| then s[start..end] else []
  }

  /** The concatenated EQUALS and DELETE tokens. */
  function Before<T>(tokens1: seq<T>, edits: seq<Edit>): seq<T> {
    if edits == [] then [] else
      var e := edits[|edits| - 1];
      Before(tokens1, edits[..|edits| - 1])
      + if e.operation == INSERT then [] else Slice(tokens1, e.start, e.end)
  }

  /** The concatenated EQUALS and INSERT tokens. */
  function After<T>(tokens1: seq<T>, tokens2: seq<T>, edits: seq<Edit>): seq<T> {
    if edits == [] then [] else
      var e := edits[|edits| - 1];
      After(tokens1, tokens2, edits[..|edits| - 1])
      + match e.operation
        case DELETE => []
        case EQUALS => Slice(tokens1, e.start, e.end)
        case INSERT => Slice(tokens2, e.start, e.end)
  }

  /** The number of tokens deleted and inserted. */
  function Cost(edits: seq<Edit>): int {
    if edits == [] then 0 else
      var e := edits[|edits| - 1];
      Cost(edits[..|edits| - 1]) + if e.operation == EQUALS then 0 else e.end - e.start
  }

  /** Any script that turns tokens1 into tokens2, however it is cut into edits. */
  ghost predicate Transforms<T>(tokens1: seq<T>, tokens2: seq<T>, edits: seq<Edit>) {
    && Before(tokens1, edits) == tokens1
    && After(tokens1, tokens2, edits) == tokens2
    && forall e :: e in edits ==> 0 <= e.start <= e.end <= if e.operation == INSERT then |tokens2| else |tokens1|
  }

  ghost predicate NoNeighboursAlike(edits: seq<Edit>) {
    forall i :: 0 <= i < |edits| - 1 ==> edits[i].operation != edits[i + 1].operation
  }

  // ----- a script as a path of the edit graph

  /** e is a non-empty step from (x, y) to (x', y'). */
  ghost predicate Step<T>(tokens1: seq<T>, tokens2: seq<T>, e: Edit, x: int, y: int, x': int, y': int) {
    && e.start < e.end
    && match e.operation
       case DELETE => 0 <= x == e.start && x' == e.end <= |tokens1| && y' == y
       case INSERT => 0 <= y == e.start && y' == e.end <= |tokens2| && x' == x
       case EQUALS => && 0 <= x == e.start && x' == e.end <= |tokens1|
                      && 0 <= y && y' == y + (e.end - e.start) <= |tokens2|
                      && tokens1[x..x'] == tokens2[y..y']
  }

  /** Where a step that ends in (x', y') comes from. */
  function From(e: Edit, x': int, y': int): (int, int) {
    match e.operation
    case DELETE => (e.start, y')
    case INSERT => (x', e.start)
    case EQUALS => (e.start, y' - (e.end - e.start))
  }

  ghost predicate Path<T>(tokens1: seq<T>, tokens2: seq<T>, edits: seq<Edit>, x: int, y: int, x': int, y': int)
    decreases |edits|
  {
    if edits == [] then x == x' && y == y'
    else
      var e := edits[|edits| - 1];
      var (u, v) := From(e, x', y');
      Path(tokens1, tokens2, edits[..|edits| - 1], x, y, u, v) && Step(tokens1, tokens2, e, u, v, x', y')
  }

  lemma PathSingle<T>(tokens1: seq<T>, tokens2: seq<T>, e: Edit, x: int, y: int, x': int, y': int)
    requires Step(tokens1, tokens2, e, x, y, x', y')
    ensures Path(tokens1, tokens2, [e], x, y, x', y')
  {
    assert [e][..0] == [];
  }

  lemma {:induction false} PathConcat<T>(
      tokens1: seq<T>, tokens2: seq<T>, s: seq<Edit>, t: seq<Edit>, x: int, y: int, u: int, v: int, x': int, y': int)
    requires Path(tokens1, tokens2, s, x, y, u, v)
    requires Path(tokens1, tokens2, t, u, v, x', y')
    ensures Path(tokens1, tokens2, s + t, x, y, x', y')
    decreases |t|
  {
    if t == [] {
      assert s + t == s;
    } else {
      var (p, q) := From(t[|t| - 1], x', y');
      PathConcat(tokens1, tokens2, s, t[..|t| - 1], x, y, u, v, p, q);
      assert (s + t)[..|s + t| - 1] == s + t[..|t| - 1];
    }
  }

  lemma {:induction false} PathFirst<T>(
      tokens1: seq<T>, tokens2: seq<T>, t: seq<Edit>, x: int, y: int, x': int, y': int)
    returns (u: int, v: int)
    requires t != [] && Path(tokens1, tokens2, t, x, y, x', y')
    ensures Step(tokens1, tokens2, t[0], x, y, u, v)
    ensures Path(tokens1, tokens2, t[1..], u, v, x', y')
    decreases |t|
  {
    var (p, q) := From(t[|t| - 1], x', y');
    if |t| == 1 {
      u, v := x', y';
    } else {
      u, v := PathFirst(tokens1, tokens2, t[..|t| - 1], x, y, p, q);
      assert t[1..][..|t| - 2] == t[..|t| - 1][1..];
    }
  }

  lemma StepSpells<T>(tokens1: seq<T>, tokens2: seq<T>, e: Edit, x: int, y: int, x': int, y': int)
    requires Step(tokens1, tokens2, e, x, y, x', y') && 0 <= x <= |tokens1| && 0 <= y <= |tokens2|
    ensures x <= x' <= |tokens1| && y <= y' <= |tokens2|
    ensures (if e.operation == INSERT then [] else Slice(tokens1, e.start, e.end)) == tokens1[x..x']
    ensures (match e.operation
             case DELETE => []
             case EQUALS => Slice(tokens1, e.start, e.end)
             case INSERT => Slice(tokens2, e.start, e.end)) == tokens2[y..y']
  {
    assert e.operation == INSERT ==> tokens1[x..x'] == [];
    assert e.operation == DELETE ==> tokens2[y..y'] == [];
  }

  /** A path stays between its ends, and so spells out what lies between them. */
  lemma {:induction false} PathSpells<T>(tokens1: seq<T>, tokens2: seq<T>, t: seq<Edit>, x: int, y: int, x': int, y': int)
    requires Path(tokens1, tokens2, t, x, y, x', y')
    requires 0 <= x <= |tokens1| && 0 <= y <= |tokens2|
    ensures x <= x' <= |tokens1| && y <= y' <= |tokens2|
    ensures Before(tokens1, t) == tokens1[x..x']
    ensures After(tokens1, tokens2, t) == tokens2[y..y']
    decreases |t|
  {
    if t != [] {
      var e := t[|t| - 1];
      var (p, q) := From(e, x', y');
      PathSpells(tokens1, tokens2, t[..|t| - 1], x, y, p, q);
      StepSpells(tokens1, tokens2, e, p, q, x', y');
      hide Step, From, Path, Slice;
      Seqs.Parts(tokens1, x, p, x');
      Seqs.Parts(tokens2, y, q, y');
    }
  }

  lemma {:induction false} PathEdits<T>(tokens1: seq<T>, tokens2: seq<T>, t: seq<Edit>, x: int, y: int, x': int, y': int)
    requires Path(tokens1, tokens2, t, x, y, x', y')
    ensures forall e :: e in t ==> 0 <= e.start < e.end <= if e.operation == INSERT then |tokens2| else |tokens1|
    decreases |t|
  {
    if t != [] {
      var e := t[|t| - 1];
      var (p, q) := From(e, x', y');
      PathEdits(tokens1, tokens2, t[..|t| - 1], x, y, p, q);
      assert t == t[..|t| - 1] + [e];
    }
  }

  // ----- no script is cheaper than the distance

  lemma {:induction false} PrefixCost<T>(a: seq<T>, b: seq<T>, s: seq<T>, t: seq<T>, x: nat, y: nat)
    requires x <= |a| && y <= |b|
    ensures Fwd(a + s, b + t, x, y) == Fwd(a, b, x, y)
    decreases x + y
  {
    if 0 < x && 0 < y {
      PrefixCost(a, b, s, t, x - 1, y - 1);
      PrefixCost(a, b, s, t, x - 1, y);
      PrefixCost(a, b, s, t, x, y - 1);
    }
  }

  lemma {:induction false} StripSuffix<T>(a: seq<T>, b: seq<T>, s: seq<T>)
    ensures Distance(a + s, b + s) == Distance(a, b)
    decreases |s|
  {
    if s == [] {
      assert a + s == a && b + s == b;
    } else {
      var s', t := s[..|s| - 1], s[|s| - 1..];
      StripSuffix(a, b, s');
      assert a + s == (a + s') + t && b + s == (b + s') + t;
      PrefixCost(a + s', b + s', t, t, |a + s'|, |b + s'|);
      assert Match(a + s, b + s, |a + s'|, |b + s'|);
    }
  }

  lemma StripPrefix<T>(p: seq<T>, a: seq<T>, b: seq<T>)
    ensures Distance(p + a, p + b) == Distance(a, b)
  {
    var rp, ra, rb := Seqs.Reversed(p), Seqs.Reversed(a), Seqs.Reversed(b);
    DistanceFromEnd(p + a, p + b, ra + rp, rb + rp);
    StripSuffix(ra, rb, rp);
    DistanceFromEnd(a, b, ra, rb);
  }

  lemma {:induction false} ExtraTokens<T>(a: seq<T>, b: seq<T>, s: seq<T>)
    ensures Distance(a + s, b) <= Distance(a, b) + |s|
    ensures Distance(a, b + s) <= Distance(a, b) + |s|
    decreases |s|
  {
    if s == [] {
      assert a + s == a && b + s == b;
    } else {
      var s', t := s[..|s| - 1], s[|s| - 1..];
      ExtraTokens(a, b, s');
      assert a + s == (a + s') + t && b + s == (b + s') + t && b + [] == b && a + [] == a;
      PrefixCost(a + s', b, t, [], |a + s'|, |b|);
      StepDiffersByOne(a + s, b, |a + s'|, |b|);
      PrefixCost(a, b + s', [], t, |a|, |b + s'|);
      StepDiffersByOne(a, b + s, |a|, |b + s'|);
    }
  }

  /** However a script is cut up, it costs at least the distance of what it relates. */
  lemma {:induction false} ScriptCostsDistance<T>(tokens1: seq<T>, tokens2: seq<T>, edits: seq<Edit>)
    requires forall e :: e in edits ==> 0 <= e.start <= e.end <= if e.operation == INSERT then |tokens2| else |tokens1|
    ensures Distance(Before(tokens1, edits), After(tokens1, tokens2, edits)) <= Cost(edits)
    decreases |edits|
  {
    if edits != [] {
      var rest, e := edits[..|edits| - 1], edits[|edits| - 1];
      ScriptCostsDistance(tokens1, tokens2, rest);
      var p, q := Before(tokens1, rest), After(tokens1, tokens2, rest);
      match e.operation
      case DELETE => ExtraTokens(p, q, tokens1[e.start..e.end]); assert q + [] == q;
      case INSERT => ExtraTokens(p, q, tokens2[e.start..e.end]); assert p + [] == p;
      case EQUALS => StripSuffix(p, q, tokens1[e.start..e.end]);
    }
  }

  lemma PathCostsDistance<T>(tokens1: seq<T>, tokens2: seq<T>, t: seq<Edit>, x: int, y: int, x': int, y': int)
    requires Path(tokens1, tokens2, t, x, y, x', y')
    requires 0 <= x <= x' <= |tokens1| && 0 <= y <= y' <= |tokens2|
    ensures Distance(tokens1[x..x'], tokens2[y..y']) <= Cost(t)
  {
    PathSpells(tokens1, tokens2, t, x, y, x', y');
    PathEdits(tokens1, tokens2, t, x, y, x', y');
    ScriptCostsDistance(tokens1, tokens2, t);
  }

  // ----- distances the shortcuts rely on

  lemma {:induction false} NothingInCommon<T>(a: seq<T>, b: seq<T>, x: nat, y: nat)
    requires forall i, j :: 0 <= i < |a| && 0 <= j < |b| ==> a[i] != b[j]
    ensures Fwd(a, b, x, y) == x + y
    decreases x + y
  {
    if 0 < x && 0 < y {
      NothingInCommon(a, b, x - 1, y);
      NothingInCommon(a, b, x, y - 1);
    }
  }

  lemma DistanceOfPrefixes<T>(a: seq<T>, b: seq<T>, x: nat, y: nat)
    requires x <= |a| && y <= |b|
    ensures Distance(a[..x], b[..y]) == Fwd(a, b, x, y)
  {
    assert a == a[..x] + a[x..] && b == b[..y] + b[y..];
    PrefixCost(a[..x], b[..y], a[x..], b[y..], x, y);
  }

  lemma MirrorOfSuffix<T>(a: seq<T>, ra: seq<T>, x: nat)
    requires IsMirror(a, ra) && x <= |a|
    ensures IsMirror(a[x..], ra[..|a| - x])
  {
  }

  lemma DistanceOfSuffixes<T>(a: seq<T>, b: seq<T>, x: nat, y: nat)
    requires x <= |a| && y <= |b|
    ensures Distance(a[x..], b[y..]) == Bwd(a, b, x, y)
  {
    var ra, rb := Seqs.Reversed(a), Seqs.Reversed(b);
    MirrorOfSuffix(a, ra, x);
    MirrorOfSuffix(b, rb, y);
    DistanceFromEnd(a[x..], b[y..], ra[..|a| - x], rb[..|b| - y]);
    DistanceOfPrefixes(ra, rb, |a| - x, |b| - y);
    BackwardsIsMirrored(a, b, ra, rb, |a| - x, |b| - y);
  }

  // ----- joining lists of edits

  /** The edit list s followed by t, fusing where they meet if possible. */
  function Fuse(s: seq<Edit>, t: seq<Edit>): seq<Edit> {
    if s != [] && t != [] && s[|s| - 1].operation == t[0].operation && s[|s| - 1].end == t[0].start
    then s[..|s| - 1] + [s[|s| - 1].(end := t[0].end)] + t[1..]
    else s + t
  }

  lemma FuseHead(s: seq<Edit>, f: Edit, t: seq<Edit>)
    ensures Fuse(s, [f] + t) == Fuse(s, [f]) + t
  {
    assert ([f] + t)[1..] == t && [f][1..] == [];
  }

  lemma FuseTail(s: seq<Edit>, t: seq<Edit>, u: seq<Edit>)
    requires t != []
    ensures Fuse(s + t, u) == s + Fuse(t, u)
  {
    assert (s + t)[|s + t| - 1] == t[|t| - 1];
    assert (s + t)[..|s + t| - 1] == s + t[..|t| - 1];
  }

  lemma FuseSingles(s: seq<Edit>, f: Edit, g: Edit)
    ensures Fuse(Fuse(s, [f]), [g]) == Fuse(s, Fuse([f], [g]))
  {
    if Fuse([f], [g]) == [f] + [g] {
      FuseHead(s, f, [g]);
    }
    assert [f][..0] == [] && [g][1..] == [];
  }

  lemma FuseAssociative(s: seq<Edit>, t: seq<Edit>, u: seq<Edit>)
    ensures Fuse(Fuse(s, t), u) == Fuse(s, Fuse(t, u))
  {
    if t == [] {
      assert Fuse(s, t) == s && Fuse(t, u) == u;
    } else if u == [] {
      assert Fuse(t, u) == t && Fuse(Fuse(s, t), u) == Fuse(s, t);
    } else if |t| == 1 {
      assert t == [t[0]] && u == [u[0]] + u[1..];
      FuseAroundOne(s, t[0], u[0], u[1..]);
    } else {
      assert t == [t[0]] + t[1..];
      FuseAroundMany(s, t[0], t[1..], u);
    }
  }

  lemma FuseAroundMany(s: seq<Edit>, f: Edit, t: seq<Edit>, u: seq<Edit>)
    requires t != []
    ensures Fuse(Fuse(s, [f] + t), u) == Fuse(s, Fuse([f] + t, u))
  {
    hide Fuse;
    FuseHead(s, f, t);
    FuseTail(Fuse(s, [f]), t, u);
    FuseTail([f], t, u);
    FuseHead(s, f, Fuse(t, u));
  }

  lemma FuseAroundOne(s: seq<Edit>, f: Edit, g: Edit, u: seq<Edit>)
    ensures Fuse(Fuse(s, [f]), [g] + u) == Fuse(s, Fuse([f], [g] + u))
  {
    FuseHead(Fuse(s, [f]), g, u);
    FuseHead([f], g, u);
    FuseSingles(s, f, g);
    var m := Fuse([f], [g]);
    assert m == [m[0]] + m[1..];
    FuseHead(s, m[0], m[1..]);
    FuseHead(s, m[0], m[1..] + u);
    assert m + u == [m[0]] + (m[1..] + u);
  }

  lemma {:induction false} CostConcat(s: seq<Edit>, t: seq<Edit>)
    ensures Cost(s + t) == Cost(s) + Cost(t)
    decreases |t|
  {
    if t == [] {
      assert s + t == s;
    } else {
      CostConcat(s, t[..|t| - 1]);
      assert (s + t)[..|s + t| - 1] == s + t[..|t| - 1];
    }
  }

  lemma FuseCost(s: seq<Edit>, t: seq<Edit>)
    ensures Cost(Fuse(s, t)) == Cost(s) + Cost(t)
  {
    if Fuse(s, t) == s + t {
      CostConcat(s, t);
    } else {
      var s', e, t' := s[..|s| - 1], s[|s| - 1], t[1..];
      assert t == [t[0]] + t' && [t[0]][..0] == [] && [e.(end := t[0].end)][..0] == [];
      CostConcat([t[0]], t');
      CostConcat(s', [e.(end := t[0].end)]);
      CostConcat(s' + [e.(end := t[0].end)], t');
      assert Cost([e.(end := t[0].end)]) == if e.operation == EQUALS then 0 else t[0].end - e.start;
    }
  }

  lemma FuseKeepsNeighbours(s: seq<Edit>, t: seq<Edit>)
    requires NoNeighboursAlike(s) && NoNeighboursAlike(t)
    requires s != [] && t != [] && s[|s| - 1].operation == t[0].operation ==> s[|s| - 1].end == t[0].start
    ensures NoNeighboursAlike(Fuse(s, t))
  {
  }

  lemma FuseSteps<T>(
      tokens1: seq<T>, tokens2: seq<T>, e: Edit, f: Edit, p: int, q: int, u: int, v: int, m: int, n: int)
    requires Step(tokens1, tokens2, e, p, q, u, v) && Step(tokens1, tokens2, f, u, v, m, n)
    requires e.operation == f.operation
    ensures e.end == f.start && Step(tokens1, tokens2, e.(end := f.end), p, q, m, n)
  {
    if e.operation == EQUALS {
      assert tokens1[p..m] == tokens1[p..u] + tokens1[u..m];
      assert tokens2[q..n] == tokens2[q..v] + tokens2[v..n];
    }
  }

  lemma FusePath<T>(
      tokens1: seq<T>, tokens2: seq<T>, s: seq<Edit>, t: seq<Edit>, x: int, y: int, u: int, v: int, x': int, y': int)
    requires Path(tokens1, tokens2, s, x, y, u, v)
    requires Path(tokens1, tokens2, t, u, v, x', y')
    requires NoNeighboursAlike(s) && NoNeighboursAlike(t)
    ensures Path(tokens1, tokens2, Fuse(s, t), x, y, x', y')
    ensures NoNeighboursAlike(Fuse(s, t))
  {
    hide NoNeighboursAlike, Step;
    PathConcat(tokens1, tokens2, s, t, x, y, u, v, x', y');
    if s != [] && t != [] && s[|s| - 1].operation == t[0].operation {
      var e, f := s[|s| - 1], t[0];
      var (p, q) := From(e, u, v);
      var m, n := PathFirst(tokens1, tokens2, t, u, v, x', y');
      FuseSteps(tokens1, tokens2, e, f, p, q, u, v, m, n);
      var g := e.(end := f.end);
      PathSingle(tokens1, tokens2, g, p, q, m, n);
      PathConcat(tokens1, tokens2, s[..|s| - 1], [g], x, y, p, q, m, n);
      PathConcat(tokens1, tokens2, s[..|s| - 1] + [g], t[1..], x, y, m, n, x', y');
    }
    FuseKeepsNeighbours(s, t);
  }
}

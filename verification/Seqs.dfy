/** Sequences backwards, and facts about concatenation that proofs name instead of rediscovering. */
module Seqs {

  function Reversed<T>(s: seq<T>): (r: seq<T>)
    ensures |r| == |s|
    ensures forall i :: 0 <= i < |s| ==> r[i] == s[|s| - 1 - i]
  {
    seq(|s|, i requires 0 <= i < |s| => s[|s| - 1 - i])
  }

  lemma Associative<T>(a: seq<T>, b: seq<T>, c: seq<T>)
    ensures a + (b + c) == a + b + c
  {
  }

  lemma TailOfConcat<T>(s: seq<T>, t: seq<T>)
    requires s != []
    ensures (s + t)[0] == s[0] && (s + t)[1..] == s[1..] + t
  {
  }

  lemma FrontOfConcat<T>(s: seq<T>, t: seq<T>)
    requires t != []
    ensures (s + t)[|s + t| - 1] == t[|t| - 1] && (s + t)[..|s + t| - 1] == s + t[..|t| - 1]
  {
  }

  lemma Parts<T>(s: seq<T>, x: int, p: int, y: int)
    requires 0 <= x <= p <= y <= |s|
    ensures s[x..y] == s[x..p] + s[p..y]
  {
  }

  lemma Around<T>(s: seq<T>, i: nat)
    requires i < |s|
    ensures s == s[..i] + ([s[i]] + s[i + 1..]) && s[i..][1..] == s[i + 1..]
  {
  }

  lemma Replaced<T>(s: seq<T>, i: nat, x: T)
    requires i < |s|
    ensures s[i := x] == s[..i] + [x] + s[i + 1..]
  {
  }

  lemma ReplacedSlice<T>(s: seq<T>, i: nat, x: T, e: int)
    requires i < e <= |s|
    ensures s[i := x][i..e] == [x] + s[i + 1..e]
  {
  }

  lemma WithoutLast<T>(s: seq<T>)
    requires |s| >= 2
    ensures s[..|s| - 1] == [s[0]] + s[1..|s| - 1] && s[1..] == s[1..|s| - 1] + [s[|s| - 1]]
  {
  }

  lemma DropOfConcat<T>(s: seq<T>, t: seq<T>, n: nat)
    requires n <= |s|
    ensures (s + t)[n..] == s[n..] + t
  {
  }

  lemma CutInTail<T>(s: seq<T>, n: nat, k: nat)
    requires n + k <= |s|
    ensures s[..n + k] == s[..n] + s[n..][..k] && s[n + k..] == s[n..][k..]
  {
  }

  lemma PutInFront<T>(a: seq<T>, x: T, t: seq<T>, i: nat)
    requires 0 < i <= |t| + 1
    ensures a + ([x] + t)[..i] == a + [x] + t[..i - 1]
    ensures a + ([x] + t) == a + [x] + t
  {
  }

  lemma Halves<T>(s: seq<T>, n: nat)
    requires n <= |s|
    ensures s == s[..n] + s[n..]
  {
  }

  lemma FirstOfRest<T>(s: seq<T>, i: nat)
    requires i < |s|
    ensures s[i..][0] == s[i] && s[i..][1..] == s[i + 1..]
  {
  }
}

/**
 What `np.argsort` promises of its result, for the scores the ranking sorts.

 The default numpy sort is not stable, so among equal scores the order of the
 indices is left open: the ranking takes the argsort result as a parameter
 constrained by `IsArgsort`, and `SortedIndices` shows that such a result
 always exists.
 */
module ArgSort {
  import opened Seqs

  /** Every entry of `p` is an index of a length-`n` sequence. */
  predicate InBounds(p: seq<nat>, n: nat) {
    forall i | 0 <= i < |p| :: p[i] < n
  }

  /** `p` lists each index `0 .. n-1` exactly once. */
  predicate IsIndexPermutation(p: seq<nat>, n: nat) {
    && |p| == n
    && InBounds(p, n)
    && Distinct(p)
    && (forall j: nat | j < n :: j in p)
  }

  /** Read through `p`, the scores `s` never decrease. */
  predicate AscendingBy(s: seq<real>, p: seq<nat>)
    requires InBounds(p, |s|)
  {
    forall i, j | 0 <= i < j < |p| :: s[p[i]] <= s[p[j]]
  }

  /** `p` is a possible value of `np.argsort(s)`: the indices of `s`, by ascending score, ties in any order. */
  predicate IsArgsort(s: seq<real>, p: seq<nat>) {
    IsIndexPermutation(p, |s|) && AscendingBy(s, p)
  }

  /** Places index `j` into the ascending index list `p`, after every index whose score is not greater. */
  function InsertByScore(s: seq<real>, p: seq<nat>, j: nat): (r: seq<nat>)
    requires j < |s| && InBounds(p, |s|)
    ensures |r| == |p| + 1
    ensures forall x | x in r :: x in p || x == j
    ensures j in r && forall x | x in p :: x in r
  {
    if p == [] then [j]
    else if s[j] < s[p[0]] then [j] + p
    else
      assert forall x | x in p :: x == p[0] || x in p[1..];
      [p[0]] + InsertByScore(s, p[1..], j)
  }

  /** Insertion keeps the index list ascending. */
  lemma {:induction false} InsertAscending(s: seq<real>, p: seq<nat>, j: nat)
    requires j < |s| && InBounds(p, |s|) && AscendingBy(s, p)
    ensures InBounds(InsertByScore(s, p, j), |s|) && AscendingBy(s, InsertByScore(s, p, j))
  {
    var r := InsertByScore(s, p, j);
    assert forall i | 0 <= i < |r| :: r[i] in r;
    if p != [] && s[p[0]] <= s[j] {
      var rest := InsertByScore(s, p[1..], j);
      InsertAscending(s, p[1..], j);
      forall x | x in rest ensures s[p[0]] <= s[x] {
        if x in p[1..] {
          var i :| 0 <= i < |p[1..]| && p[1..][i] == x;
          assert p[i + 1] == x;
        }
      }
      assert forall i | 0 <= i < |rest| :: rest[i] in rest;
    }
  }

  /** Inserting a new index into a list without repeats gives a list without repeats. */
  lemma {:induction false} InsertDistinct(s: seq<real>, p: seq<nat>, j: nat)
    requires j < |s| && InBounds(p, |s|) && Distinct(p) && j !in p
    ensures Distinct(InsertByScore(s, p, j))
  {
    if p != [] && s[p[0]] <= s[j] {
      var rest := InsertByScore(s, p[1..], j);
      assert Distinct(p[1..]);
      InsertDistinct(s, p[1..], j);
      assert p[0] !in p[1..];
      assert p[0] !in rest;
    }
  }

  /** Argsort of the first `n` scores, by insertion. */
  function SortedPrefix(s: seq<real>, n: nat): (p: seq<nat>)
    requires n <= |s|
    ensures |p| == n && InBounds(p, n) && Distinct(p)
    ensures forall j: nat | j < n :: j in p
    ensures InBounds(p, |s|) && AscendingBy(s, p)
  {
    if n == 0 then []
    else
      var p0 := SortedPrefix(s, n - 1);
      InsertAscending(s, p0, n - 1);
      InsertDistinct(s, p0, n - 1);
      var p := InsertByScore(s, p0, n - 1);
      assert forall i | 0 <= i < |p| :: p[i] in p;
      p
  }

  /** One argsort of `s`; the ranking may use any other that `IsArgsort` admits. */
  function SortedIndices(s: seq<real>): (p: seq<nat>)
    ensures IsArgsort(s, p)
  {
    SortedPrefix(s, |s|)
  }
}

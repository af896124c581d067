/**
 Facts about finite sequences shared by the data-frame queries and the ranking,
 and the two Python slicing forms the ranking uses: `s[-k:]` and `s[::-1]`.
 */
module Seqs {

  /** No element of `s` occurs twice. */
  predicate Distinct<T(==)>(s: seq<T>) {
    forall i, j | 0 <= i < j < |s| :: s[i] != s[j]
  }

  /** The set of elements of `s`. */
  function Elems<T>(s: seq<T>): set<T> {
    set x | x in s
  }

  function Min(a: int, b: int): int {
    if a <= b then a else b
  }

  /** Position of the first occurrence of `x` in `s`. */
  function IndexOf<T(==)>(s: seq<T>, x: T): (i: nat)
    requires x in s
    ensures i < |s| && s[i] == x
    ensures forall j | 0 <= j < i :: s[j] != x
  {
    if s[0] == x then 0 else 1 + IndexOf(s[1..], x)
  }

  /** Every element of `r` occurs in `s`, and `r` lists them in the order of their first occurrence in `s`. */
  predicate OrderedAsIn<T(==)>(r: seq<T>, s: seq<T>) {
    && (forall x | x in r :: x in s)
    && (forall i, j | 0 <= i < j < |r| :: IndexOf(s, r[i]) < IndexOf(s, r[j]))
  }

  /** A first occurrence inside a prefix is the first occurrence in the whole sequence. */
  lemma {:induction false} IndexOfPrefix<T>(s: seq<T>, k: nat, x: T)
    requires k <= |s| && x in s[..k]
    ensures x in s && IndexOf(s, x) == IndexOf(s[..k], x)
  {
    if s[0] != x {
      assert s[1..][..k - 1] == s[..k][1..];
      IndexOfPrefix(s[1..], k - 1, x);
    }
  }

  /** A distinct sequence has as many elements as its set of elements. */
  lemma {:induction false} DistinctCardinality<T>(s: seq<T>)
    requires Distinct(s)
    ensures |Elems(s)| == |s|
  {
    if |s| > 0 {
      var t, x := s[..|s| - 1], s[|s| - 1];
      assert Distinct(t);
      DistinctCardinality(t);
      assert s == t + [x];
      assert Elems(s) == Elems(t) + {x};
      assert x !in Elems(t);
    }
  }

  /** How many entries `[-k:]` keeps of a length-`n` sequence: `[-0:]` is the whole of it. */
  function Kept(n: nat, k: nat): nat {
    if k == 0 then n else Min(k, n)
  }

  /**
   Python's `s[-k:]`: the last `k` elements, or all of `s` when it is shorter.
   As in Python, `-0 == 0`, so `s[-0:]` is the whole sequence.
   */
  function FromEnd<T>(s: seq<T>, k: nat): (r: seq<T>)
    ensures |r| == Kept(|s|, k)
    ensures forall i | 0 <= i < |r| :: r[i] == s[|s| - |r| + i]
  {
    var m := Kept(|s|, k);
    seq(m, i requires 0 <= i < m => s[|s| - m + i])
  }

  /**
   Where Python's slice `s[a:]` starts, for `|s| == n`: a negative `a` counts
   from the end, and the result is clamped to `0 .. n`.
   */
  function PyStart(n: nat, a: int): nat {
    var b := if a < 0 then a + n else a;
    if b < 0 then 0 else if b > n then n else b
  }

  /** `FromEnd(s, k)` is exactly Python's slice `s[-k:]`. */
  lemma FromEndIsPythonSlice<T>(s: seq<T>, k: nat)
    ensures PyStart(|s|, 0 - k) <= |s|
    ensures FromEnd(s, k) == s[PyStart(|s|, 0 - k)..]
  {
  }

  /** Python's `s[::-1]`. */
  function Reverse<T>(s: seq<T>): seq<T> {
    seq(|s|, i requires 0 <= i < |s| => s[|s| - 1 - i])
  }
}

/**
 `recommend_movies(user_id, model, df)`: the titles worth recommending to one
 user, best first.

 The catalog is the distinct title ids of the frame; the candidates are those
 the user has not rated, in catalog order; each candidate is scored by the
 predictor, the candidate indices are argsorted by score, the last five are
 kept and reversed, and the indices are mapped back to title ids.

 The predictor is a total function from a (user, title) pair to a score; only
 the order of the scores matters to the ranking.
 */
module Recommender {
  import opened Seqs
  import opened Frame
  import opened ArgSort

  /** How many titles `[-5:]` keeps. */
  const TopN: nat := 5

  /** `[movie for movie in all_movies if movie not in user_rated_movies]`. */
  function Unrated<I(==)>(catalog: seq<I>, rated: seq<I>): seq<I> {
    if catalog == [] then []
    else (if catalog[0] in rated then [] else [catalog[0]]) + Unrated(catalog[1..], rated)
  }

  /**
   The filter keeps exactly the catalog titles that are not rated; from a
   catalog without repeats it keeps each once, in catalog order.
   */
  lemma {:induction false} UnratedSpec<I>(catalog: seq<I>, rated: seq<I>)
    ensures forall x | x in Unrated(catalog, rated) :: x in catalog && x !in rated
    ensures forall x | x in catalog && x !in rated :: x in Unrated(catalog, rated)
    ensures Distinct(catalog) ==> Distinct(Unrated(catalog, rated)) && OrderedAsIn(Unrated(catalog, rated), catalog)
  {
    if catalog != [] {
      var c0, tail := catalog[0], catalog[1..];
      var rest := Unrated(tail, rated);
      UnratedSpec(tail, rated);
      assert forall x | x in catalog :: x == c0 || x in tail;
      if Distinct(catalog) {
        assert Distinct(tail);
        assert c0 !in tail;
        forall y | y in tail ensures IndexOf(catalog, y) == 1 + IndexOf(tail, y) {
          assert y != c0;
        }
        assert IndexOf(catalog, c0) == 0;
      }
    }
  }

  /** When nothing in the catalog is rated, every catalog title is a candidate, in catalog order. */
  lemma {:induction false} UnratedNoneRated<I>(catalog: seq<I>, rated: seq<I>)
    requires forall x | x in catalog :: x !in rated
    ensures Unrated(catalog, rated) == catalog
  {
    if catalog != [] {
      assert catalog[0] in catalog;
      UnratedNoneRated(catalog[1..], rated);
    }
  }

  /** `unrated_movies`: the catalog titles `user` has not rated. */
  function Candidates<U(==), I(==)>(rows: seq<Row<U, I>>, user: U): seq<I> {
    Unrated(Catalog(rows), RatedBy(rows, user))
  }

  /** The candidates are the unrated catalog titles, each once, in catalog order. */
  lemma CandidatesSpec<U, I>(rows: seq<Row<U, I>>, user: U)
    ensures Distinct(Candidates(rows, user))
    ensures Elems(Candidates(rows, user)) == AllItems(rows) - ItemsRatedBy(rows, user)
    ensures OrderedAsIn(Candidates(rows, user), Catalog(rows))
  {
    CatalogSpec(rows);
    RatedBySpec(rows, user);
    UnratedSpec(Catalog(rows), RatedBy(rows, user));
  }

  /** A user with no rows in the frame gets the whole catalog as candidates. */
  lemma NewUserCandidates<U, I>(rows: seq<Row<U, I>>, user: U)
    requires forall r | r in rows :: r.user != user
    ensures Candidates(rows, user) == Catalog(rows)
  {
    RatedByNewUser(rows, user);
    UnratedNoneRated(Catalog(rows), []);
  }

  /** `pred_ratings`: the predicted score of each candidate, position by position. */
  function PredRatings<U, I>(user: U, model: (U, I) -> real, movies: seq<I>): seq<real> {
    seq(|movies|, i requires 0 <= i < |movies| => model(user, movies[i]))
  }

  /** `order[-k:][::-1]`: positions of the `k` best scores, best first. */
  function TopIndices(order: seq<nat>, k: nat): seq<nat> {
    Reverse(FromEnd(order, k))
  }

  /** `[movies[i] for i in idx]`. */
  function Pick<I>(movies: seq<I>, idx: seq<nat>): seq<I>
    requires InBounds(idx, |movies|)
  {
    seq(|idx|, i requires 0 <= i < |idx| => movies[idx[i]])
  }

  /** The top-`k` titles of `movies` under the argsort `order`. */
  function TopK<I>(movies: seq<I>, order: seq<nat>, k: nat): (r: seq<I>)
    requires InBounds(order, |movies|)
    ensures |r| == Kept(|order|, k)
  {
    var top := TopIndices(order, k);
    assert forall i | 0 <= i < |top| :: top[i] in order;
    Pick(movies, top)
  }

  /** Entry `i` of the top-`k` titles is the candidate at position `i` from the end of the argsort. */
  lemma TopKAt<I>(movies: seq<I>, order: seq<nat>, k: nat, i: nat)
    requires |order| == |movies| && InBounds(order, |movies|)
    requires i < Kept(|movies|, k)
    ensures TopK(movies, order, k)[i] == movies[order[|movies| - 1 - i]]
  {
  }

  /** Read through `order`, the top-`k` titles come in non-increasing score order. */
  lemma TopKDescending<U, I>(user: U, model: (U, I) -> real, movies: seq<I>, order: seq<nat>, k: nat)
    requires |order| == |movies| && InBounds(order, |movies|)
    requires AscendingBy(PredRatings(user, model, movies), order)
    ensures forall i, j | 0 <= i < j < |TopK(movies, order, k)| ::
      model(user, TopK(movies, order, k)[i]) >= model(user, TopK(movies, order, k)[j])
  {
    var s, n := PredRatings(user, model, movies), |movies|;
    forall i, j | 0 <= i < j < Kept(n, k)
      ensures model(user, TopK(movies, order, k)[i]) >= model(user, TopK(movies, order, k)[j])
    {
      TopKAt(movies, order, k, i);
      TopKAt(movies, order, k, j);
      assert s[order[n - 1 - j]] <= s[order[n - 1 - i]];
    }
  }

  /** Distinct candidates give distinct top-`k` titles, all of them candidates. */
  lemma TopKDistinct<I>(movies: seq<I>, order: seq<nat>, k: nat)
    requires Distinct(movies) && IsIndexPermutation(order, |movies|)
    ensures Distinct(TopK(movies, order, k))
    ensures forall x | x in TopK(movies, order, k) :: x in movies
  {
    var n := |movies|;
    forall i, j | 0 <= i < j < Kept(n, k) ensures TopK(movies, order, k)[i] != TopK(movies, order, k)[j] {
      TopKAt(movies, order, k, i);
      TopKAt(movies, order, k, j);
      assert order[n - 1 - i] != order[n - 1 - j];
    }
    forall x | x in TopK(movies, order, k) ensures x in movies {
      var i :| 0 <= i < Kept(n, k) && TopK(movies, order, k)[i] == x;
      TopKAt(movies, order, k, i);
    }
  }

  /** No candidate left out of the top `k` scores higher than one kept. */
  lemma TopKDominance<U, I>(user: U, model: (U, I) -> real, movies: seq<I>, order: seq<nat>, k: nat)
    requires IsArgsort(PredRatings(user, model, movies), order)
    ensures forall x, y | x in movies && x !in TopK(movies, order, k) && y in TopK(movies, order, k) ::
      model(user, x) <= model(user, y)
  {
    var s, n := PredRatings(user, model, movies), |movies|;
    var m := Kept(n, k);
    forall x, y | x in movies && x !in TopK(movies, order, k) && y in TopK(movies, order, k)
      ensures model(user, x) <= model(user, y)
    {
      var a :| 0 <= a < n && movies[a] == x;
      assert a in order;
      var q :| 0 <= q < n && order[q] == a;
      if q >= n - m {
        TopKAt(movies, order, k, n - 1 - q);
        assert false;
      }
      var i :| 0 <= i < m && TopK(movies, order, k)[i] == y;
      TopKAt(movies, order, k, i);
      assert s[order[q]] <= s[order[n - 1 - i]];
    }
  }

  /**
   When `[-k:]` keeps the whole argsort (`k == 0`, where `[-0:]` is the whole
   list, or `k` at least the number of candidates), every candidate comes back.
   */
  lemma TopKKeepsAll<I>(movies: seq<I>, order: seq<nat>, k: nat)
    requires IsIndexPermutation(order, |movies|)
    requires k == 0 || |movies| <= k
    ensures |TopK(movies, order, k)| == |movies|
    ensures forall x | x in movies :: x in TopK(movies, order, k)
  {
    var n := |movies|;
    forall x | x in movies ensures x in TopK(movies, order, k) {
      var a :| 0 <= a < n && movies[a] == x;
      assert a in order;
      var q :| 0 <= q < n && order[q] == a;
      TopKAt(movies, order, k, n - 1 - q);
    }
  }

  /**
   `recommend_movies(user, model, df)`, where `order` is the value
   `np.argsort(pred_ratings)` returned.
   */
  function RecommendMovies<U(==), I(==)>(user: U, model: (U, I) -> real, rows: seq<Row<U, I>>, order: seq<nat>): seq<I>
    requires IsArgsort(PredRatings(user, model, Candidates(rows, user)), order)
  {
    TopK(Candidates(rows, user), order, TopN)
  }

  /**
   `RecommendMovies` can always be called: the scores of the candidates have an
   argsort, for instance `SortedIndices`.
   */
  lemma RecommendMoviesDefined<U, I>(user: U, model: (U, I) -> real, rows: seq<Row<U, I>>)
    ensures var s := PredRatings(user, model, Candidates(rows, user));
      IsArgsort(s, SortedIndices(s))
  {
  }

  /**
   The recommendations for `user`: unrated titles of the frame, none twice,
   `min(5, #unrated titles)` of them, best first, and no unrated title left
   out scores higher than one recommended.
   */
  lemma RecommendMoviesSpec<U, I>(user: U, model: (U, I) -> real, rows: seq<Row<U, I>>, order: seq<nat>)
    requires IsArgsort(PredRatings(user, model, Candidates(rows, user)), order)
    ensures var r, pool := RecommendMovies(user, model, rows, order), AllItems(rows) - ItemsRatedBy(rows, user);
      && (forall x | x in r :: x in AllItems(rows) && x !in ItemsRatedBy(rows, user))
      && Distinct(r)
      && |r| == Min(TopN, |pool|)
      && (forall i, j | 0 <= i < j < |r| :: model(user, r[i]) >= model(user, r[j]))
      && (forall x, y | x in pool && x !in r && y in r :: model(user, x) <= model(user, y))
  {
    var c := Candidates(rows, user);
    CandidatesSpec(rows, user);
    DistinctCardinality(c);
    TopKDistinct(c, order, TopN);
    TopKDescending(user, model, c, order, TopN);
    TopKDominance(user, model, c, order, TopN);
  }

  /** Titles 1..5: user 7 rated 1 and 3, user 8 rated 2, 4 and 5. */
  function ExampleRows(): seq<Row<int, int>> {
    [Row(7, 1), Row(8, 2), Row(7, 3), Row(8, 4), Row(8, 5)]
  }

  /** In the example table, user 7's candidates are titles 2, 4 and 5, in that order. */
  lemma ExampleCandidates()
    ensures Candidates(ExampleRows(), 7) == [2, 4, 5]
  {
    var rows, u := ExampleRows(), [1, 2, 3, 4, 5];
    assert ItemColumn(rows) == u;
    UniqueOfDistinct(u);
    assert rows[1..][1..][1..][1..][1..] == [];
    assert RatedBy(rows, 7) == [1, 3];
    assert u[1..][1..][1..][1..][1..] == [];
  }

  /**
   With predictions 4.5, 2.0 and 9.1 for titles 2, 4 and 5, every argsort of
   the predictions ranks them 5, 2, 4.
   */
  lemma ExampleRanking(model: (int, int) -> real, order: seq<nat>)
    requires model(7, 2) == 4.5 && model(7, 4) == 2.0 && model(7, 5) == 9.1
    requires IsArgsort(PredRatings(7, model, [2, 4, 5]), order)
    ensures TopK([2, 4, 5], order, TopN) == [5, 2, 4]
  {
    var c := [2, 4, 5];
    TopKDistinct(c, order, TopN);
    TopKDescending(7, model, c, order, TopN);
    var r := TopK(c, order, TopN);
    assert |r| == 3;
    assert r[0] in r && r[1] in r && r[2] in r;
  }

  /**
   A user who rated titles 1 and 3 of the catalog 1..5, with predictions 4.5,
   2.0 and 9.1 for titles 2, 4 and 5, is recommended 5, 2, 4 whatever argsort
   is used.
   */
  lemma RatedUserExample(model: (int, int) -> real, order: seq<nat>)
    requires model(7, 2) == 4.5 && model(7, 4) == 2.0 && model(7, 5) == 9.1
    requires IsArgsort(PredRatings(7, model, Candidates(ExampleRows(), 7)), order)
    ensures RecommendMovies(7, model, ExampleRows(), order) == [5, 2, 4]
  {
    ExampleCandidates();
    ExampleRanking(model, order);
  }

  /** User 9 has no rows in the example table, so every title is a candidate. */
  lemma NewUserExampleCandidates()
    ensures Candidates(ExampleRows(), 9) == [1, 2, 3, 4, 5]
  {
    var rows, c := ExampleRows(), [1, 2, 3, 4, 5];
    NewUserCandidates(rows, 9);
    assert ItemColumn(rows) == c;
    UniqueOfDistinct(c);
  }

  /**
   With predictions 1.0, 4.5, 3.0, 2.0 and 9.1 for titles 1..5, every argsort
   of the predictions ranks all five as 5, 2, 3, 4, 1.
   */
  lemma NewUserExampleRanking(model: (int, int) -> real, order: seq<nat>)
    requires model(9, 1) == 1.0 && model(9, 2) == 4.5 && model(9, 3) == 3.0
    requires model(9, 4) == 2.0 && model(9, 5) == 9.1
    requires IsArgsort(PredRatings(9, model, [1, 2, 3, 4, 5]), order)
    ensures TopK([1, 2, 3, 4, 5], order, TopN) == [5, 2, 3, 4, 1]
  {
    var c := [1, 2, 3, 4, 5];
    TopKDistinct(c, order, TopN);
    TopKDescending(9, model, c, order, TopN);
    TopKKeepsAll(c, order, TopN);
    var r := TopK(c, order, TopN);
    assert 1 in c && 2 in c && 3 in c && 4 in c && 5 in c;
    ExampleFiveRanked(model, r);
  }

  /** A listing of titles 1..5, each once, by non-increasing prediction, is 5, 2, 3, 4, 1. */
  lemma ExampleFiveRanked(model: (int, int) -> real, r: seq<int>)
    requires model(9, 1) == 1.0 && model(9, 2) == 4.5 && model(9, 3) == 3.0
    requires model(9, 4) == 2.0 && model(9, 5) == 9.1
    requires |r| == 5 && Distinct(r) && forall x | x in r :: 1 <= x <= 5
    requires 1 in r && 2 in r && 3 in r && 4 in r && 5 in r
    requires forall i, j | 0 <= i < j < |r| :: model(9, r[i]) >= model(9, r[j])
    ensures r == [5, 2, 3, 4, 1]
  {
    assert r[0] in r && r[1] in r && r[2] in r && r[3] in r && r[4] in r;
    var i5 :| 0 <= i5 < 5 && r[i5] == 5;
    assert r[0] == 5 by {
      assert model(9, r[0]) >= model(9, r[i5]);
    }
    var i2 :| 0 <= i2 < 5 && r[i2] == 2;
    assert r[1] == 2 by {
      assert i2 >= 1 && model(9, r[1]) >= model(9, r[i2]);
    }
    var i3 :| 0 <= i3 < 5 && r[i3] == 3;
    assert r[2] == 3 by {
      assert i3 >= 2 && model(9, r[2]) >= model(9, r[i3]);
    }
    var i4 :| 0 <= i4 < 5 && r[i4] == 4;
    assert r[3] == 4 by {
      assert i4 >= 3 && model(9, r[3]) >= model(9, r[i4]);
    }
  }

  /**
   A user with no rows, with predictions 1.0, 4.5, 3.0, 2.0 and 9.1 for titles
   1..5, is recommended all five as 5, 2, 3, 4, 1 whatever argsort is used.
   */
  lemma NewUserExample(model: (int, int) -> real, order: seq<nat>)
    requires model(9, 1) == 1.0 && model(9, 2) == 4.5 && model(9, 3) == 3.0
    requires model(9, 4) == 2.0 && model(9, 5) == 9.1
    requires IsArgsort(PredRatings(9, model, Candidates(ExampleRows(), 9)), order)
    ensures RecommendMovies(9, model, ExampleRows(), order) == [5, 2, 3, 4, 1]
  {
    NewUserExampleCandidates();
    NewUserExampleRanking(model, order);
  }
}

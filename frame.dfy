/**
 The two queries `recommend_movies` asks of the loaded data frame.

 The frame is the user-interaction table left-merged with the titles, so each
 row records that a user rated a title; only the `user_id` and `id` columns
 matter here. The catalog is therefore the set of title ids that occur in the
 interaction rows, not the whole titles table.
 */
module Frame {
  import opened Seqs

  /** One row of the merged table: `user` rated title `item`. */
  datatype Row<U, I> = Row(user: U, item: I)

  /** The `id` column, in row order. */
  function ItemColumn<U, I>(rows: seq<Row<U, I>>): seq<I> {
    seq(|rows|, i requires 0 <= i < |rows| => rows[i].item)
  }

  /** The set view of the `id` column: every title id present in the table. */
  ghost function AllItems<U, I>(rows: seq<Row<U, I>>): set<I> {
    set r | r in rows :: r.item
  }

  /** The set view of the user's rows: the title ids `user` has a row for. */
  ghost function ItemsRatedBy<U, I>(rows: seq<Row<U, I>>, user: U): set<I> {
    set r | r in rows && r.user == user :: r.item
  }

  /**
   pandas `Series.unique()`: each distinct value once, in the order of its
   first appearance.
   */
  function Unique<T(==)>(s: seq<T>): (r: seq<T>)
    ensures Distinct(r)
    ensures forall x | x in r :: x in s
    ensures forall x | x in s :: x in r
    ensures |r| <= |s|
  {
    if |s| == 0 then []
    else
      var r0, x := Unique(s[..|s| - 1]), s[|s| - 1];
      assert forall y | y in s :: y in s[..|s| - 1] || y == x by {
        assert s == s[..|s| - 1] + [x];
      }
      if x in r0 then r0 else r0 + [x]
  }

  /** `unique()` keeps the order of first appearance. */
  lemma {:induction false} UniqueOrder<T>(s: seq<T>)
    ensures OrderedAsIn(Unique(s), s)
  {
    if |s| > 0 {
      var n := |s|;
      var t, x := s[..n - 1], s[n - 1];
      var r0 := Unique(t);
      UniqueOrder(t);
      forall y | y in r0 ensures IndexOf(s, y) == IndexOf(t, y) {
        IndexOfPrefix(s, n - 1, y);
      }
      if x !in r0 {
        var r := r0 + [x];
        assert x !in t;
        assert IndexOf(s, x) == n - 1;
        forall i, j | 0 <= i < j < |r| ensures IndexOf(s, r[i]) < IndexOf(s, r[j]) {
          assert r[i] == r0[i];
          if j < |r0| {
            assert r[j] == r0[j];
          } else {
            assert IndexOf(s, r[i]) == IndexOf(t, r0[i]) < |t|;
          }
        }
      }
    }
  }

  /** A column without repeats is its own `unique()`. */
  lemma {:induction false} UniqueOfDistinct<T>(s: seq<T>)
    requires Distinct(s)
    ensures Unique(s) == s
  {
    if |s| > 0 {
      var t := s[..|s| - 1];
      assert Distinct(t);
      UniqueOfDistinct(t);
      assert s[|s| - 1] !in t;
      assert t + [s[|s| - 1]] == s;
    }
  }

  /** `df['id'].unique()`: the catalog the ranking starts from. */
  function Catalog<U, I(==)>(rows: seq<Row<U, I>>): seq<I> {
    Unique(ItemColumn(rows))
  }

  /** The `id` column holds exactly the table's title ids. */
  lemma ItemColumnElems<U, I>(rows: seq<Row<U, I>>)
    ensures Elems(ItemColumn(rows)) == AllItems(rows)
  {
    var ids := ItemColumn(rows);
    forall x ensures x in ids <==> x in AllItems(rows) {
      if x in ids {
        var i :| 0 <= i < |ids| && ids[i] == x;
        assert rows[i] in rows;
      }
      if x in AllItems(rows) {
        var r :| r in rows && r.item == x;
        var i :| 0 <= i < |rows| && rows[i] == r;
        assert ids[i] == x;
      }
    }
  }

  /** The catalog lists every title id of the table exactly once. */
  lemma CatalogSpec<U, I>(rows: seq<Row<U, I>>)
    ensures Distinct(Catalog(rows))
    ensures Elems(Catalog(rows)) == AllItems(rows)
    ensures OrderedAsIn(Catalog(rows), ItemColumn(rows))
  {
    UniqueOrder(ItemColumn(rows));
    ItemColumnElems(rows);
  }

  /**
   `df[df['user_id'] == user]['id'].values`: the ids of the rows of `user`,
   in row order, repeats kept.
   */
  function RatedBy<U(==), I>(rows: seq<Row<U, I>>, user: U): (ids: seq<I>)
    ensures |ids| <= |rows|
  {
    if rows == [] then []
    else (if rows[0].user == user then [rows[0].item] else []) + RatedBy(rows[1..], user)
  }

  /** The rated ids are exactly the ids of the user's rows. */
  lemma {:induction false} RatedBySpec<U, I>(rows: seq<Row<U, I>>, user: U)
    ensures Elems(RatedBy(rows, user)) == ItemsRatedBy(rows, user)
  {
    if rows != [] {
      RatedBySpec(rows[1..], user);
      assert rows == [rows[0]] + rows[1..];
      assert ItemsRatedBy(rows, user)
        == (if rows[0].user == user then {rows[0].item} else {}) + ItemsRatedBy(rows[1..], user);
    }
  }

  /** A user without rows (a new user) has rated nothing. */
  lemma {:induction false} RatedByNewUser<U, I>(rows: seq<Row<U, I>>, user: U)
    requires forall r | r in rows :: r.user != user
    ensures RatedBy(rows, user) == []
  {
    if rows != [] {
      assert rows[0] in rows;
      RatedByNewUser(rows[1..], user);
    }
  }
}

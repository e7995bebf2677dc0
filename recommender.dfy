/**
 The hybrid recommendation rule: a seed movie's row of the content
 similarity matrix, plus a flat bonus for every title that the user's
 nearest neighbour liked, ranked highest first with the first rank dropped.

 The catalog, the rating table and both similarity matrices are inputs; how
 the matrices were computed (genre tokens, cosine similarity) is not part of
 this model. The tie-break of the neighbour sort is not fixed either: the
 caller supplies the ordering of users, and any ordering that sorts the
 user's similarity column from highest to lowest is admitted.
 */
module Recommender {
  import opened PySeq
  import opened Ranking

  type UserName = string

  /** A rating at or above this marks a title as liked. */
  const LikeThreshold: int := 4
  /** Added to the content score of every title the neighbour liked. */
  const LikeBonus: real := 0.5

  const MovieNotFound: string := "Movie not found!"
  const UserNotFound: string := "User not found!"

  /** One catalog row. The genre only feeds the content similarity matrix. */
  datatype Movie = Movie(title: Title, genre: string)

  /** The rating table: one row per user, one column per rated title,
      0 standing for "not rated". */
  datatype RatingTable = RatingTable(users: seq<UserName>, titles: seq<Title>, rows: seq<seq<int>>)

  /** Everything the rule reads: the catalog, the ratings, and the two
      similarity matrices derived from them (N x N over the catalog,
      M x M over the users). */
  datatype Tables = Tables(catalog: seq<Movie>, ratings: RatingTable,
                           contentSim: seq<seq<real>>, userSim: seq<seq<real>>)
  {
    /** The shapes the tables have by construction, and distinct user
        labels (the user's similarity column is looked up by label). */
    predicate Valid()
    {
      && |contentSim| == |catalog|
      && (forall i :: 0 <= i < |contentSim| ==> |contentSim[i]| == |catalog|)
      && |ratings.rows| == |ratings.users|
      && (forall i :: 0 <= i < |ratings.rows| ==> |ratings.rows[i]| == |ratings.titles|)
      && |userSim| == |ratings.users|
      && (forall i :: 0 <= i < |userSim| ==> |userSim[i]| == |ratings.users|)
      && (forall i, j :: 0 <= i < j < |ratings.users| ==> ratings.users[i] != ratings.users[j])
    }
  }

  /** What the rule gives back: a list of strings (recommendations or a
      one-line message), or the IndexError raised when no second user exists. */
  datatype Outcome = Returns(value: seq<string>) | IndexError

  /** The catalog's title column, searched by the title check and the seed lookup. */
  function Titles(catalog: seq<Movie>): (r: seq<Title>)
    ensures |r| == |catalog|
  {
    seq(|catalog|, i requires 0 <= i < |catalog| => catalog[i].title)
  }

  /** The titles of a ranked slice, which is the list the rule returns; the
      same projection as `Titles`, taken over scored pairs. */
  function TitlesOf(s: seq<Scored>): (r: seq<Title>)
    ensures |r| == |s|
  {
    seq(|s|, i requires 0 <= i < |s| => s[i].title)
  }

  /** Column `u` of the user similarity matrix: every user's similarity to user `u`. */
  function Column(userSim: seq<seq<real>>, u: nat): (c: seq<real>)
    requires forall v :: 0 <= v < |userSim| ==> u < |userSim[v]|
    ensures |c| == |userSim|
  {
    seq(|userSim|, v requires 0 <= v < |userSim| => userSim[v][u])
  }

  /** `order` lists every user position exactly once, from the highest
      similarity in `col` to the lowest; equal similarities in any order. */
  predicate IsDescendingOrder(order: seq<nat>, col: seq<real>)
  {
    && |order| == |col|
    && (forall i :: 0 <= i < |order| ==> order[i] < |col|)
    && (forall i, j :: 0 <= i < j < |order| ==> order[i] != order[j])
    && (forall x :: 0 <= x < |col| ==> x in order)
    && (forall i, j :: 0 <= i < j < |order| ==> col[order[i]] >= col[order[j]])
  }

  /** The neighbour is the entry at position 1 of the sorted column: its
      similarity is at least that of every user except the one dropped at
      position 0, and it is a different user from that one. */
  lemma NeighbourScore(order: seq<nat>, col: seq<real>)
    requires IsDescendingOrder(order, col) && |order| >= 2
    ensures order[1] != order[0]
    ensures forall x :: 0 <= x < |col| && x != order[0] ==> col[x] <= col[order[1]]
  {
    forall x | 0 <= x < |col| && x != order[0] ensures col[x] <= col[order[1]] {
      assert x in order;
      var p :| 0 <= p < |order| && order[p] == x;
      assert p != 0;
    }
  }

  /** Whichever tie-break the sort uses, the neighbour's similarity is the same. */
  lemma {:induction false} NeighbourScoreDetermined(o1: seq<nat>, o2: seq<nat>, col: seq<real>)
    requires IsDescendingOrder(o1, col) && IsDescendingOrder(o2, col) && |col| >= 2
    ensures col[o1[1]] == col[o2[1]]
  {
    NeighbourScore(o1, col);
    NeighbourScore(o2, col);
    assert o2[0] in o1 && o1[0] in o2;
    var p :| 0 <= p < |o1| && o1[p] == o2[0];
    var q :| 0 <= q < |o2| && o2[q] == o1[0];
    assert col[o1[0]] == col[o2[0]];
  }

  /** When the user is strictly more similar to themself than to anyone else,
      the dropped first entry is the user, and the neighbour is someone else. */
  lemma NeighbourIsOtherUser(order: seq<nat>, col: seq<real>, u: nat)
    requires IsDescendingOrder(order, col) && |order| >= 2 && u < |col|
    requires forall x :: 0 <= x < |col| && x != u ==> col[x] < col[u]
    ensures order[0] == u && order[1] != u
  {
    assert u in order;
    var p :| 0 <= p < |order| && order[p] == u;
  }

  /** The titles of the rating table that `row` rates at or above the threshold,
      in column order. */
  function Liked(titles: seq<Title>, row: seq<int>): (r: seq<Title>)
    requires |row| == |titles|
    ensures forall t :: t in r <==>
      exists j :: 0 <= j < |titles| && titles[j] == t && row[j] >= LikeThreshold
  {
    if titles == [] then []
    else
      var rest := Liked(titles[1..], row[1..]);
      (if row[0] >= LikeThreshold then [titles[0]] else []) + rest
  }

  function Bonus(title: Title, liked: seq<Title>): real
  {
    if title in liked then LikeBonus else 0.0
  }

  /** The combined list before sorting, one entry per catalog position. */
  function Combined(catalog: seq<Movie>, row: seq<real>, liked: seq<Title>): seq<Scored>
    requires |row| == |catalog|
  {
    if catalog == [] then []
    else
      var n := |catalog| - 1;
      Combined(catalog[..n], row[..n], liked) + [Scored(catalog[n].title, row[n] + Bonus(catalog[n].title, liked))]
  }

  /** Exactly one entry per catalog title, in catalog order, scored by the
      content score plus the bonus when the title is liked. */
  lemma {:induction false} CombinedAt(catalog: seq<Movie>, row: seq<real>, liked: seq<Title>)
    requires |row| == |catalog|
    ensures |Combined(catalog, row, liked)| == |catalog|
    ensures forall i :: 0 <= i < |catalog| ==>
      Combined(catalog, row, liked)[i] == Entry(catalog, row, liked, i)
  {
    if catalog != [] {
      var n := |catalog| - 1;
      CombinedAt(catalog[..n], row[..n], liked);
    }
  }

  /** The entry the rule builds for catalog position `i`. */
  function Entry(catalog: seq<Movie>, row: seq<real>, liked: seq<Title>, i: nat): Scored
    requires i < |catalog| && |row| == |catalog|
  {
    Scored(catalog[i].title, row[i] + Bonus(catalog[i].title, liked))
  }

  /** `x` is the entry of some catalog position. */
  ghost predicate IsEntry(catalog: seq<Movie>, row: seq<real>, liked: seq<Title>, x: Scored)
    requires |row| == |catalog|
  {
    exists i :: 0 <= i < |catalog| && x == Entry(catalog, row, liked, i)
  }

  lemma InCombined(catalog: seq<Movie>, row: seq<real>, liked: seq<Title>)
    requires |row| == |catalog|
    ensures forall x :: x in Combined(catalog, row, liked) <==> IsEntry(catalog, row, liked, x)
  {
    CombinedAt(catalog, row, liked);
    var combined := Combined(catalog, row, liked);
    forall x | x in combined ensures IsEntry(catalog, row, liked, x) {
      var i :| 0 <= i < |combined| && combined[i] == x;
    }
  }

  /** The loop that appends one (title, score) pair per catalog position. */
  method CombineScores(catalog: seq<Movie>, row: seq<real>, liked: seq<Title>) returns (combined: seq<Scored>)
    requires |row| == |catalog|
    ensures combined == Combined(catalog, row, liked)
  {
    combined := [];
    for i := 0 to |row|
      invariant combined == Combined(catalog[..i], row[..i], liked)
    {
      var title := catalog[i].title;
      var bonus := if title in liked then LikeBonus else 0.0;
      combined := combined + [Scored(title, row[i] + bonus)];
      assert catalog[..i + 1][..i] == catalog[..i];
      assert row[..i + 1][..i] == row[..i];
    }
    assert catalog[..|row|] == catalog;
    assert row[..|row|] == row;
  }

  /** The combined list for seed position `m` and neighbour `v`, sorted. */
  function Ranked(t: Tables, m: nat, v: nat): (r: seq<Scored>)
    requires t.Valid() && m < |t.catalog| && v < |t.ratings.users|
    ensures |r| == |t.catalog|
  {
    var combined := Combined(t.catalog, t.contentSim[m], Liked(t.ratings.titles, t.ratings.rows[v]));
    CombinedAt(t.catalog, t.contentSim[m], Liked(t.ratings.titles, t.ratings.rows[v]));
    SortByScore(combined)
  }

  /** `order` is an admissible outcome of sorting the user's similarity
      column, whenever the user exists. */
  predicate OrderFits(t: Tables, user: UserName, order: seq<nat>)
    requires t.Valid()
  {
    match IndexOf(t.ratings.users, user)
    case None => true
    case Some(u) => IsDescendingOrder(order, Column(t.userSim, u))
  }

  /** The rule as a function of its inputs. Every string it returns is a
      catalog title or one of the two messages. */
  function Recommend(t: Tables, order: seq<nat>, user: UserName, movie: Title, topN: int): (r: Outcome)
    requires t.Valid() && OrderFits(t, user, order)
    ensures r.Returns? ==>
      forall x :: x in r.value ==> x in Titles(t.catalog) || x == MovieNotFound || x == UserNotFound
  {
    if movie !in Titles(t.catalog) then Returns([MovieNotFound])
    else if user !in t.ratings.users then Returns([UserNotFound])
    else
      var m := IndexOf(Titles(t.catalog), movie).value;
      if |order| < 2 then IndexError
      else
        SliceTitlesInCatalog(t, m, order[1], topN);
        Returns(TitlesOf(Slice(Ranked(t, m, order[1]), 1, topN + 1)))
  }

  /** Every title of a slice of the ranking is a catalog title. */
  lemma SliceTitlesInCatalog(t: Tables, m: nat, v: nat, topN: int)
    requires t.Valid() && m < |t.catalog| && v < |t.ratings.users|
    ensures forall x :: x in TitlesOf(Slice(Ranked(t, m, v), 1, topN + 1)) ==> x in Titles(t.catalog)
  {
    var ranked := Ranked(t, m, v);
    var result := TitlesOf(Slice(ranked, 1, topN + 1));
    RankedTitles(t, m, v);
    forall x | x in result ensures x in Titles(t.catalog) {
      var k :| 0 <= k < |result| && result[k] == x;
      assert x == ranked[SliceBound(1, |ranked|) + k].title;
    }
  }

  /** The rule as the source runs it, step by step. */
  method HybridRecommend(t: Tables, order: seq<nat>, user: UserName, movie: Title, topN: int)
    returns (out: Outcome)
    requires t.Valid() && OrderFits(t, user, order)
    ensures out == Recommend(t, order, user, movie, topN)
  {
    var titles := Titles(t.catalog);
    if movie !in titles {
      return Returns([MovieNotFound]);
    }
    if user !in t.ratings.users {
      return Returns([UserNotFound]);
    }
    var m := IndexOf(titles, movie).value;
    var contentScores := t.contentSim[m];
    if |order| < 2 {
      return IndexError;
    }
    var neighbour := order[1];
    var liked := Liked(t.ratings.titles, t.ratings.rows[neighbour]);
    var combined := CombineScores(t.catalog, contentScores, liked);
    var ranked := SortByScore(combined);
    out := Returns(TitlesOf(Slice(ranked, 1, topN + 1)));
  }

  /** The title check runs first and wins when both names are unknown; the
      user check runs second. */
  lemma LookupMessages(t: Tables, order: seq<nat>, user: UserName, movie: Title, topN: int)
    requires t.Valid() && OrderFits(t, user, order)
    ensures movie !in Titles(t.catalog) ==> Recommend(t, order, user, movie, topN) == Returns([MovieNotFound])
    ensures movie in Titles(t.catalog) && user !in t.ratings.users ==>
      Recommend(t, order, user, movie, topN) == Returns([UserNotFound])
  {
  }

  /** Both names known: the rule raises IndexError exactly when the rating
      table has fewer than two users. */
  lemma IndexErrorExactly(t: Tables, order: seq<nat>, user: UserName, movie: Title, topN: int)
    requires t.Valid() && OrderFits(t, user, order)
    ensures Recommend(t, order, user, movie, topN).IndexError? <==>
      movie in Titles(t.catalog) && user in t.ratings.users && |t.ratings.users| < 2
  {
  }

  /** Every entry of the ranking is some catalog position's title with that
      position's content score plus its bonus, and every such entry is ranked. */
  lemma RankedEntries(t: Tables, m: nat, v: nat)
    requires t.Valid() && m < |t.catalog| && v < |t.ratings.users|
    ensures forall x :: x in Ranked(t, m, v) <==>
      IsEntry(t.catalog, t.contentSim[m], Liked(t.ratings.titles, t.ratings.rows[v]), x)
  {
    var liked := Liked(t.ratings.titles, t.ratings.rows[v]);
    var combined := Combined(t.catalog, t.contentSim[m], liked);
    assert Ranked(t, m, v) == SortByScore(combined);
    SortByScoreMembers(combined);
    InCombined(t.catalog, t.contentSim[m], liked);
  }

  /** With both names known and two or more users, the ordering has a
      position 1 and it names a user. */
  lemma NeighbourExists(t: Tables, order: seq<nat>, user: UserName)
    requires t.Valid() && OrderFits(t, user, order)
    requires user in t.ratings.users && |t.ratings.users| >= 2
    ensures |order| >= 2 && order[1] < |t.ratings.users|
  {
  }

  /** On success the result is the ranked titles at positions 1 to topN, and
      its length is min(topN, N - 1). */
  lemma RecommendRanks(t: Tables, order: seq<nat>, user: UserName, movie: Title, topN: int)
    requires t.Valid() && OrderFits(t, user, order)
    requires movie in Titles(t.catalog) && user in t.ratings.users && |t.ratings.users| >= 2
    requires topN >= 0
    ensures |order| >= 2 && order[1] < |t.ratings.users|
    ensures var ranked := Ranked(t, IndexOf(Titles(t.catalog), movie).value, order[1]);
      Recommend(t, order, user, movie, topN) == Returns(TitlesOf(ranked[1..Min(topN + 1, |ranked|)]))
    ensures |Recommend(t, order, user, movie, topN).value| == Min(topN, |t.catalog| - 1)
  {
  }

  /** Every recommended title is a catalog title. */
  lemma RecommendInCatalog(t: Tables, order: seq<nat>, user: UserName, movie: Title, topN: int)
    requires t.Valid() && OrderFits(t, user, order)
    requires movie in Titles(t.catalog) && user in t.ratings.users && |t.ratings.users| >= 2
    ensures Recommend(t, order, user, movie, topN).Returns?
    ensures forall x :: x in Recommend(t, order, user, movie, topN).value ==> x in Titles(t.catalog)
  {
    NeighbourExists(t, order, user);
    var m := IndexOf(Titles(t.catalog), movie).value;
    SliceTitlesInCatalog(t, m, order[1], topN);
  }

  /** Every ranked title is a catalog title. */
  lemma RankedTitles(t: Tables, m: nat, v: nat)
    requires t.Valid() && m < |t.catalog| && v < |t.ratings.users|
    ensures forall k :: 0 <= k < |Ranked(t, m, v)| ==> Ranked(t, m, v)[k].title in Titles(t.catalog)
  {
    var ranked := Ranked(t, m, v);
    var liked := Liked(t.ratings.titles, t.ratings.rows[v]);
    RankedEntries(t, m, v);
    forall k | 0 <= k < |ranked| ensures ranked[k].title in Titles(t.catalog) {
      assert ranked[k] in ranked;
      var i :| 0 <= i < |t.catalog| && ranked[k] == Entry(t.catalog, t.contentSim[m], liked, i);
      assert Titles(t.catalog)[i] == ranked[k].title;
    }
  }

  /** Catalog titles are pairwise different. */
  predicate DistinctTitles(catalog: seq<Movie>)
  {
    forall i, j :: 0 <= i < j < |catalog| ==> catalog[i].title != catalog[j].title
  }

  /** The entry at catalog position `m` scores strictly above every other entry. */
  predicate StrictlyBest(catalog: seq<Movie>, row: seq<real>, liked: seq<Title>, m: nat)
    requires |row| == |catalog| && m < |catalog|
  {
    forall j :: 0 <= j < |catalog| && j != m ==> Entry(catalog, row, liked, j).score < Entry(catalog, row, liked, m).score
  }

  /** With distinct catalog titles, no two ranks carry the same title. */
  lemma RankedTitlesUnique(t: Tables, m: nat, v: nat)
    requires t.Valid() && m < |t.catalog| && v < |t.ratings.users|
    requires DistinctTitles(t.catalog)
    ensures UniqueTitles(Ranked(t, m, v))
  {
    var liked := Liked(t.ratings.titles, t.ratings.rows[v]);
    var combined := Combined(t.catalog, t.contentSim[m], liked);
    CombinedAt(t.catalog, t.contentSim[m], liked);
    assert forall i :: 0 <= i < |combined| ==> combined[i].title == t.catalog[i].title;
    SortByScoreKeepsTitlesUnique(combined);
  }

  /** The rank dropped is rank 0, whatever title holds it: with distinct
      catalog titles, that title is never recommended. */
  lemma HeadNotRecommended(t: Tables, order: seq<nat>, user: UserName, movie: Title, topN: int)
    requires t.Valid() && OrderFits(t, user, order)
    requires movie in Titles(t.catalog) && user in t.ratings.users && |t.ratings.users| >= 2
    requires DistinctTitles(t.catalog)
    ensures |order| >= 2 && order[1] < |t.ratings.users| && |t.catalog| >= 1
    ensures Recommend(t, order, user, movie, topN).Returns?
    ensures Ranked(t, IndexOf(Titles(t.catalog), movie).value, order[1])[0].title
      !in Recommend(t, order, user, movie, topN).value
  {
    NeighbourExists(t, order, user);
    var m := IndexOf(Titles(t.catalog), movie).value;
    var ranked := Ranked(t, m, order[1]);
    RankedTitlesUnique(t, m, order[1]);
    TitleNotAfterHead(ranked, ranked[0].title, topN);
  }

  /** When the seed's combined score is strictly the highest and titles are
      distinct, rank 0 is the seed and the seed is not recommended. */
  lemma SeedExcludedWhenStrictlyBest(t: Tables, order: seq<nat>, user: UserName, movie: Title, topN: int)
    requires t.Valid() && OrderFits(t, user, order)
    requires movie in Titles(t.catalog) && user in t.ratings.users && |t.ratings.users| >= 2
    requires DistinctTitles(t.catalog)
    requires |order| >= 2 && order[1] < |t.ratings.users|
    requires StrictlyBest(t.catalog, t.contentSim[IndexOf(Titles(t.catalog), movie).value],
      Liked(t.ratings.titles, t.ratings.rows[order[1]]), IndexOf(Titles(t.catalog), movie).value)
    ensures Recommend(t, order, user, movie, topN).Returns?
    ensures movie !in Recommend(t, order, user, movie, topN).value
  {
    var m := IndexOf(Titles(t.catalog), movie).value;
    var liked := Liked(t.ratings.titles, t.ratings.rows[order[1]]);
    var combined := Combined(t.catalog, t.contentSim[m], liked);
    var ranked := Ranked(t, m, order[1]);
    assert ranked == SortByScore(combined);
    CombinedAt(t.catalog, t.contentSim[m], liked);
    assert combined[m].title == movie by {
      assert Titles(t.catalog)[m] == movie;
    }
    StrictBestRanksFirst(combined, m);
    HeadNotRecommended(t, order, user, movie, topN);
  }

  /** A title that no rank after the first carries is not in the result. */
  lemma TitleNotAfterHead(ranked: seq<Scored>, title: Title, topN: int)
    requires forall k :: 1 <= k < |ranked| ==> ranked[k].title != title
    ensures title !in TitlesOf(Slice(ranked, 1, topN + 1))
  {
  }

  /** Two movies of identical genres, so each is as similar to the seed as
      the seed itself; User2 is User1's neighbour and liked only Avengers. */
  const Example: Tables := Tables(
    [Movie("The Matrix", "Action Sci-Fi"), Movie("Avengers", "Action Sci-Fi")],
    RatingTable(["User1", "User2"], ["The Matrix", "Avengers"], [[5, 0], [0, 5]]),
    [[1.0, 1.0], [1.0, 1.0]],
    [[1.0, 0.0], [0.0, 1.0]])

  lemma ExampleLiked()
    ensures Liked(Example.ratings.titles, Example.ratings.rows[1]) == ["Avengers"]
  {
  }

  lemma ExampleCombined()
    ensures Combined(Example.catalog, Example.contentSim[0], ["Avengers"])
      == [Scored("The Matrix", 1.0), Scored("Avengers", 1.5)]
  {
  }

  lemma ExampleRanked()
    ensures Ranked(Example, 0, 1) == [Scored("Avengers", 1.5), Scored("The Matrix", 1.0)]
  {
    ExampleLiked();
    ExampleCombined();
    var s := [Scored("The Matrix", 1.0), Scored("Avengers", 1.5)];
    assert SortByScore(s[1..]) == [Scored("Avengers", 1.5)];
    assert Insert(s[0], [Scored("Avengers", 1.5)]) == [Scored("Avengers", 1.5), Scored("The Matrix", 1.0)];
  }

  lemma ExampleFits()
    ensures Example.Valid() && OrderFits(Example, "User1", [0, 1])
  {
  }

  lemma ExampleSeed()
    ensures "The Matrix" in Titles(Example.catalog)
    ensures IndexOf(Titles(Example.catalog), "The Matrix") == Some(0)
  {
    assert Titles(Example.catalog) == ["The Matrix", "Avengers"];
  }

  lemma ExampleOutcome()
    ensures Example.Valid() && OrderFits(Example, "User1", [0, 1])
    ensures Recommend(Example, [0, 1], "User1", "The Matrix", 3)
      == Returns(TitlesOf(Slice(Ranked(Example, 0, 1), 1, 4)))
  {
    ExampleFits();
    ExampleSeed();
    assert "User1" in Example.ratings.users;
  }

  /** The dropped first rank need not be the seed: the neighbour liked only
      the other movie, which then takes rank 0, and the seed itself is
      recommended. */
  lemma SeedCanBeRecommended()
    ensures Example.Valid() && OrderFits(Example, "User1", [0, 1])
    ensures Recommend(Example, [0, 1], "User1", "The Matrix", 3) == Returns(["The Matrix"])
  {
    ExampleOutcome();
    ExampleRanked();
    assert Slice(Ranked(Example, 0, 1), 1, 4) == [Scored("The Matrix", 1.0)];
  }
}

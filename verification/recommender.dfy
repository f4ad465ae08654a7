/** The two queries of the engine over a loaded corpus: movies similar to a
    title (`recommend`, app.py:33-37) and the first movies of a genre
    (`recommenderFnVoteBased`, app.py:39-80), plus the score column they read
    (`compute_scores`, app.py:24-29). */
module Recommender {
  import opened Wrappers
  import opened Text
  import opened Genres
  import opened Rating
  import opened Ranking

  /** One row of the movie table. */
  datatype Movie = Movie(title: string, voteAverage: real, voteCount: nat, genres: Field)

  /** A row of the scored copy of the table. */
  datatype Rated = Rated(movie: Movie, score: Score)

  /** `compute_scores`: the table with each movie's weighted rating added,
      given the corpus mean `c` and the vote threshold `m`. */
  function ScoreAll(movies: seq<Movie>, m: real, c: real): (r: seq<Rated>)
    requires m >= 0.0
    ensures |r| == |movies|
    ensures forall i :: 0 <= i < |movies| ==>
              r[i].movie == movies[i]
              && r[i].score == WeightedRating(movies[i].voteCount, movies[i].voteAverage, m, c)
  {
    seq(|movies|, i requires 0 <= i < |movies| =>
      Rated(movies[i], WeightedRating(movies[i].voteCount, movies[i].voteAverage, m, c)))
  }

  /** With a non-negative threshold every score lies between the movie's
      own average and the corpus mean. */
  lemma ScoresBetweenAverageAndMean(movies: seq<Movie>, m: real, c: real, i: int)
    requires 0 <= i < |movies| && m >= 0.0 && movies[i].voteCount as real + m > 0.0
    ensures var s := ScoreAll(movies, m, c)[i].score;
            var r := movies[i].voteAverage;
            s.Value? && (if r <= c then r else c) <= s.x <= (if r <= c then c else r)
  {
    ScoreIsConvex(movies[i].voteCount, movies[i].voteAverage, m, c);
  }

  // ----- genre query -----

  /** How many movies a genre query returns at most. */
  const Limit: nat := 3

  /** One entry of a genre answer. The score is not rounded in this model. */
  datatype Hit = Hit(title: string, score: Score)

  /** A genre query answers with its hits, or with a message naming the
      genre as it was asked for when nothing matched. */
  datatype GenreAnswer = Found(hits: seq<Hit>) | NoMovies(message: string)

  const NoMoviesPrefix: string := "No movies found for the genre: \""

  /** The answer when nothing matched: the genre as it was asked for, not its
      normal form, in double quotes after a fixed text. */
  function NoMoviesMessage(genre: string): (msg: string)
    ensures |msg| == |NoMoviesPrefix| + |genre| + 1
    ensures msg[..|NoMoviesPrefix|] == NoMoviesPrefix
    ensures msg[|NoMoviesPrefix|..|msg| - 1] == genre
    ensures msg[|msg| - 1] == '"'
  {
    NoMoviesPrefix + genre + "\""
  }

  function HitOf(row: Rated): (h: Hit)
  {
    Hit(row.movie.title, row.score)
  }

  /** Normalising the row's genres raises. */
  predicate Raises(row: Rated)
  {
    QueryTokens(row.movie.genres).None?
  }

  /** The row's genre tokens contain `key`. */
  predicate Matches(row: Rated, key: string)
  {
    QueryTokens(row.movie.genres).Some? && key in QueryTokens(row.movie.genres).value
  }

  /** The rows `keep` accepts, as hits, in corpus order. */
  function Select(rows: seq<Rated>, keep: Rated -> bool): (r: seq<Hit>)
  {
    if |rows| == 0 then []
    else
      Select(rows[..|rows| - 1], keep)
      + (if keep(rows[|rows| - 1]) then [HitOf(rows[|rows| - 1])] else [])
  }

  function MatchesKey(key: string): Rated -> bool
  {
    row => Matches(row, key)
  }

  /** Every row whose genre tokens contain `key`, as a hit, in corpus order. */
  function Hits(rows: seq<Rated>, key: string): (r: seq<Hit>)
  {
    Select(rows, MatchesKey(key))
  }

  /** At most one hit per row. */
  lemma {:induction false} SelectLength(rows: seq<Rated>, keep: Rated -> bool)
    ensures |Select(rows, keep)| <= |rows|
  {
    if |rows| > 0 {
      SelectLength(rows[..|rows| - 1], keep);
    }
  }

  /** Selecting from a prefix of the corpus gives a prefix of the selection. */
  lemma {:induction false} SelectPrefix(rows: seq<Rated>, i: nat, keep: Rated -> bool)
    requires i <= |rows|
    ensures |Select(rows[..i], keep)| <= |Select(rows, keep)|
    ensures Select(rows[..i], keep) == Select(rows, keep)[..|Select(rows[..i], keep)|]
    decreases |rows|
  {
    if i < |rows| {
      var init := rows[..|rows| - 1];
      assert init[..i] == rows[..i];
      SelectPrefix(init, i, keep);
    } else {
      assert rows[..i] == rows;
    }
  }

  /** Nothing is selected exactly when `keep` accepts no row. */
  lemma {:induction false} SelectEmpty(rows: seq<Rated>, keep: Rated -> bool)
    ensures |Select(rows, keep)| == 0 <==> forall i :: 0 <= i < |rows| ==> !keep(rows[i])
  {
    if |rows| > 0 {
      var init := rows[..|rows| - 1];
      SelectEmpty(init, keep);
      assert forall i :: 0 <= i < |init| ==> init[i] == rows[i];
    }
  }

  /** Everything selected is the hit of an accepted row. */
  lemma {:induction false} SelectSound(rows: seq<Rated>, keep: Rated -> bool, h: Hit)
    requires h in Select(rows, keep)
    ensures exists i :: 0 <= i < |rows| && keep(rows[i]) && h == HitOf(rows[i])
  {
    var init := rows[..|rows| - 1];
    var last := |rows| - 1;
    if h in Select(init, keep) {
      SelectSound(init, keep, h);
      var i :| 0 <= i < |init| && keep(init[i]) && h == HitOf(init[i]);
      assert init[i] == rows[i];
    } else {
      assert keep(rows[last]) && h == HitOf(rows[last]);
    }
  }

  /** Every accepted row is selected. */
  lemma {:induction false} SelectComplete(rows: seq<Rated>, keep: Rated -> bool, i: nat)
    requires i < |rows| && keep(rows[i])
    ensures HitOf(rows[i]) in Select(rows, keep)
  {
    var init := rows[..|rows| - 1];
    if i < |init| {
      assert init[i] == rows[i];
      SelectComplete(init, keep, i);
    }
  }

  /** The hits are exactly the matching rows: none exactly when no row
      matches, each one from a matching row, and every matching row among
      them. */
  lemma HitsAreMatches(rows: seq<Rated>, key: string)
    ensures |Hits(rows, key)| == 0 <==> forall i :: 0 <= i < |rows| ==> !Matches(rows[i], key)
    ensures forall h :: h in Hits(rows, key) ==>
              exists i :: 0 <= i < |rows| && Matches(rows[i], key) && h == HitOf(rows[i])
    ensures forall i :: 0 <= i < |rows| && Matches(rows[i], key) ==> HitOf(rows[i]) in Hits(rows, key)
  {
    var keep := MatchesKey(key);
    SelectEmpty(rows, keep);
    forall h | h in Hits(rows, key)
      ensures exists i :: 0 <= i < |rows| && Matches(rows[i], key) && h == HitOf(rows[i])
    {
      SelectSound(rows, keep, h);
    }
    forall i | 0 <= i < |rows| && Matches(rows[i], key)
      ensures HitOf(rows[i]) in Hits(rows, key)
    {
      SelectComplete(rows, keep, i);
    }
  }

  /** `recommenderFnVoteBased`: scans the scored corpus in order for rows
      whose genre tokens contain the normalised genre and stops at the third.
      It raises if a row it reaches cannot be normalised; with no match it
      answers with the message instead of a list. */
  method RecommendByGenre(rows: seq<Rated>, genre: string) returns (r: Result<GenreAnswer, PyException>)
    ensures r.Failure? <==> exists i :: 0 <= i < |rows| && Raises(rows[i])
                                        && |Hits(rows[..i], Key(genre))| < Limit
    ensures r.Failure? ==> r.error == AttributeError
    ensures r.Success? ==>
              var hs := Hits(rows, Key(genre));
              if |hs| == 0 then r.value == NoMovies(NoMoviesMessage(genre))
              else r.value == Found(hs[..Min(Limit, |hs|)])
  {
    var key := Key(genre);
    var found: seq<Hit> := [];
    var i := 0;
    while i < |rows| && |found| < Limit
      invariant 0 <= i <= |rows|
      invariant found == Hits(rows[..i], key)
      invariant |found| <= Limit
      invariant forall j :: 0 <= j < i ==> !Raises(rows[j])
    {
      if Raises(rows[i]) {
        return Failure(AttributeError);
      }
      HitsStep(rows, i, key);
      NoRaiseStep(rows, i);
      if Matches(rows[i], key) {
        found := found + [HitOf(rows[i])];
      }
      i := i + 1;
    }
    HitsAfterScan(rows, i, key);
    if |found| == 0 {
      r := Success(NoMovies(NoMoviesMessage(genre)));
    } else {
      r := Success(Found(found));
    }
  }

  lemma NoRaiseStep(rows: seq<Rated>, i: nat)
    requires i < |rows| && (forall j :: 0 <= j < i ==> !Raises(rows[j])) && !Raises(rows[i])
    ensures forall j :: 0 <= j < i + 1 ==> !Raises(rows[j])
  {
  }

  /** One more row of the scan adds its hit exactly when it matches. */
  lemma HitsStep(rows: seq<Rated>, i: nat, key: string)
    requires i < |rows|
    ensures Hits(rows[..i + 1], key)
            == Hits(rows[..i], key) + (if Matches(rows[i], key) then [HitOf(rows[i])] else [])
  {
    assert rows[..i + 1][..i] == rows[..i];
    assert MatchesKey(key)(rows[i]) == Matches(rows[i], key);
  }

  /** Where the scan stops, the hits found so far are the first of all the
      hits, and every later prefix already holds at least the limit. */
  lemma HitsAfterScan(rows: seq<Rated>, i: nat, key: string)
    requires i <= |rows|
    requires i == |rows| || |Hits(rows[..i], key)| >= Limit
    ensures var hs := Hits(rows, key);
            |Hits(rows[..i], key)| <= |hs|
            && Hits(rows[..i], key) == hs[..|Hits(rows[..i], key)|]
    ensures i == |rows| ==> Hits(rows[..i], key) == Hits(rows, key)
    ensures forall j :: i <= j < |rows| ==> |Hits(rows[..j], key)| >= Limit
  {
    SelectPrefix(rows, i, MatchesKey(key));
    if i == |rows| {
      assert rows[..i] == rows;
    }
    forall j | i <= j < |rows|
      ensures |Hits(rows[..j], key)| >= Limit
    {
      SelectPrefix(rows[..j], i, MatchesKey(key));
      assert rows[..j][..i] == rows[..i];
    }
  }

  /** The hits do not depend on the case or surrounding whitespace of the
      genre asked for. */
  lemma GenreQueryInsensitive(rows: seq<Rated>, genre: string)
    ensures Hits(rows, Key(Lower(genre))) == Hits(rows, Key(genre))
    ensures Hits(rows, Key(Strip(genre))) == Hits(rows, Key(genre))
  {
    KeyInsensitive(genre);
  }

  // ----- title query -----

  /** The position of the first movie titled `t`. */
  function FirstIndex(titles: seq<string>, t: string): (r: Option<nat>)
    ensures r.None? <==> t !in titles
    ensures r.Some? ==> r.value < |titles| && titles[r.value] == t
                        && forall j :: 0 <= j < r.value ==> titles[j] != t
  {
    if |titles| == 0 then None
    else if titles[0] == t then Some(0)
    else
      match FirstIndex(titles[1..], t)
      case None => None
      case Some(i) => Some(i + 1)
  }

  /** A similarity matrix for `n` movies: one row of `n` values per movie. */
  predicate Square(sim: seq<seq<real>>, n: nat)
  {
    |sim| == n && forall i :: 0 <= i < n ==> |sim[i]| == n
  }

  function TitlesOf(titles: seq<string>, ids: seq<nat>): (r: seq<string>)
    requires forall k :: 0 <= k < |ids| ==> ids[k] < |titles|
    ensures |r| == |ids|
    ensures forall k :: 0 <= k < |ids| ==> r[k] == titles[ids[k]]
  {
    seq(|ids|, k requires 0 <= k < |ids| => titles[ids[k]])
  }

  /** `recommend` as written: resolves the title to its first row (an
      `IndexError` when no row has it), then returns the titles at sorted
      positions 1 to 5 of that row of the similarity matrix. */
  function RecommendAsWritten(titles: seq<string>, sim: seq<seq<real>>, movie: string)
    : (r: Result<seq<string>, PyException>)
    requires Square(sim, |titles|)
    ensures r.Failure? <==> movie !in titles
    ensures r.Failure? ==> r.error == IndexError
    ensures r.Success? ==> |r.value| == Min(5, |titles| - 1)
  {
    match FirstIndex(titles, movie)
    case None => Failure(IndexError)
    case Some(q) =>
      var ids := NeighboursAsWritten(sim[q]);
      NeighboursAsWrittenSpec(sim[q]);
      Success(TitlesOf(titles, ids))
  }

  /** `recommend` with the query movie itself excluded, as sorted position 0
      is meant to be: up to five other movies, most similar first. */
  function Recommend(titles: seq<string>, sim: seq<seq<real>>, movie: string)
    : (r: Result<seq<string>, PyException>)
    requires Square(sim, |titles|)
    ensures r.Failure? <==> movie !in titles
    ensures r.Failure? ==> r.error == IndexError
    ensures r.Success? ==> |r.value| == Min(5, |titles| - 1)
  {
    match FirstIndex(titles, movie)
    case None => Failure(IndexError)
    case Some(q) =>
      var ids := Neighbours(sim[q], q);
      NeighboursSpec(sim[q], q);
      Success(TitlesOf(titles, ids))
  }

  /** The recommended titles are those of other movies than the one asked
      for, in descending similarity with ties to the lower row, and no movie
      left out is more similar than one recommended. */
  lemma RecommendSpec(titles: seq<string>, sim: seq<seq<real>>, movie: string)
    requires Square(sim, |titles|) && movie in titles
    ensures var q := FirstIndex(titles, movie).value;
            var ids := Neighbours(sim[q], q);
            && q !in ids
            && (forall k :: 0 <= k < |ids| ==> ids[k] < |titles|)
            && Recommend(titles, sim, movie) == Success(TitlesOf(titles, ids))
            && (forall k, l :: 0 <= k < l < |ids| ==> Before(At(sim[q], ids[k]), At(sim[q], ids[l])))
            && (forall j, k :: 0 <= j < |titles| && j != q && j !in ids && 0 <= k < |ids|
                  ==> Before(At(sim[q], ids[k]), At(sim[q], j)))
  {
    var q := FirstIndex(titles, movie).value;
    NeighboursSpec(sim[q], q);
  }

  /** What `recommend` returns as written: the best-ranked movie of the
      row (`Top`, ahead of every other movie) is dropped, whichever movie
      it is, and the titles are those of the next best movies in descending
      similarity with ties to the lower row; no movie left out, other than
      the dropped one, is more similar than one recommended. */
  lemma RecommendAsWrittenSpec(titles: seq<string>, sim: seq<seq<real>>, movie: string)
    requires Square(sim, |titles|) && movie in titles
    ensures var q := FirstIndex(titles, movie).value;
            var row := sim[q];
            var ids := NeighboursAsWritten(row);
            && |row| > 0
            && Top(row) < |titles|
            && (forall j :: 0 <= j < |titles| && j != Top(row) ==> Before(At(row, Top(row)), At(row, j)))
            && (forall k :: 0 <= k < |ids| ==> ids[k] < |titles| && ids[k] != Top(row))
            && RecommendAsWritten(titles, sim, movie) == Success(TitlesOf(titles, ids))
            && (forall k, l :: 0 <= k < l < |ids| ==> Before(At(row, ids[k]), At(row, ids[l])))
            && (forall j, k :: 0 <= j < |titles| && j != Top(row) && j !in ids && 0 <= k < |ids|
                  ==> Before(At(row, ids[k]), At(row, j)))
  {
    var q := FirstIndex(titles, movie).value;
    NeighboursAsWrittenSpec(sim[q]);
  }

  /** The finding on two movies: "B" has an empty overview, so its row of
      the similarity matrix is all zeros; the stable sort puts movie 0 first
      and `[1:6]` recommends "B" to itself. */
  lemma RecommendsTitleToItselfOnTie(titles: seq<string>, sim: seq<seq<real>>)
    requires titles == ["A", "B"] && sim == [[1.0, 0.0], [0.0, 0.0]]
    ensures RecommendAsWritten(titles, sim, "B") == Success(["B"])
    ensures Recommend(titles, sim, "B") == Success(["A"])
  {
    assert titles[0] != "B" && titles[1] == "B";
    assert FirstIndex(titles[1..], "B") == Some(0);
    assert FirstIndex(titles, "B") == Some(1);
    AsWrittenRecommendsQueryOnTie(sim[1]);
    assert TitlesOf(titles, [1]) == ["B"];
    assert TitlesOf(titles, [0]) == ["A"];
  }
}

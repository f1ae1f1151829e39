/** recommend: the five movies ranked right after the top of the query movie's similarity
    row, as two position-aligned lists of titles and poster URLs.

    The catalog is the `movies` frame, one `Movie` per row, with the frame's index label equal
    to the row position. The similarity matrix is square over the catalog and holds integer
    scores (they are only compared). The metadata API is a function from movie id to the
    `Response` it gives. An unknown title, on which the source raises an IndexError, answers
    `NotFound`. */
module Recommender {
  import opened Common
  import opened Ranking
  import opened Posters

  datatype Movie = Movie(movieId: int, title: string)

  datatype Recommendation = NotFound | Found(names: seq<string>, posters: seq<string>)

  /** The slice `distances[1:6]`: skip the top-ranked pair, keep the next five. */
  const FirstKept := 1
  const PastLastKept := 6

  /** The matrix is square and its dimension is the catalog's row count. */
  predicate IsSimilarityFor(similarity: seq<seq<int>>, n: nat)
  {
    |similarity| == n && forall i :: 0 <= i < n ==> |similarity[i]| == n
  }

  /** `movies[movies['title'] == movie].index[0]`, when the mask selects any row. */
  function TitleIndex(movies: seq<Movie>, title: string): Option<nat>
  {
    FirstMatch(movies, (m: Movie) => m.title == title)
  }

  /** `distances[1:6]` for the ranking of `row`, with Python's clamping of slice bounds. */
  function TopPicks(row: seq<int>): (picks: seq<Scored>)
    ensures |picks| == if |row| == 0 then 0 else Min(5, |row| - 1)
    ensures forall k :: 0 <= k < |picks| ==> picks[k].index < |row| && picks[k].score == row[picks[k].index]
    ensures Ranked(picks)
    ensures DistinctIndices(picks)
  {
    var ranking := Rank(row);
    var picks := ranking[Min(FirstKept, |ranking|)..Min(PastLastKept, |ranking|)];
    assert forall k :: 0 <= k < |picks| ==> picks[k] == ranking[Min(FirstKept, |ranking|) + k];
    picks
  }

  /** The picks are the ranking from its second entry on. */
  lemma TopPicksSlice(row: seq<int>)
    ensures forall k :: 1 <= k <= |TopPicks(row)| ==> Rank(row)[k] == TopPicks(row)[k - 1]
  {
  }

  /** Position k of `names` and `posters` describes the catalog row of the k-th pick. */
  predicate Shows(names: seq<string>, posters: seq<string>, movies: seq<Movie>, picks: seq<Scored>,
                  tmdb: int -> Response)
  {
    && |names| == |picks| && |posters| == |picks|
    && forall k :: 0 <= k < |picks| ==>
         && picks[k].index < |movies|
         && names[k] == movies[picks[k].index].title
         && posters[k] == FetchPoster(tmdb(movies[picks[k].index].movieId))
  }

  method Recommend(movies: seq<Movie>, similarity: seq<seq<int>>, movie: string, tmdb: int -> Response)
    returns (result: Recommendation)
    requires IsSimilarityFor(similarity, |movies|)
    ensures result.NotFound? <==> forall i :: 0 <= i < |movies| ==> movies[i].title != movie
    ensures match TitleIndex(movies, movie)
      case None => result == NotFound
      case Some(q) => result.Found? && Shows(result.names, result.posters, movies, TopPicks(similarity[q]), tmdb)
  {
    var index := TitleIndex(movies, movie);
    if index.None? {
      return NotFound;
    }
    var distances := TopPicks(similarity[index.value]);
    var names: seq<string> := [];
    var posters: seq<string> := [];
    for k := 0 to |distances|
      invariant Shows(names, posters, movies, distances[..k], tmdb)
    {
      var m := movies[distances[k].index];
      posters := posters + [FetchPoster(tmdb(m.movieId))];
      names := names + [m.title];
    }
    assert distances[..|distances|] == distances;
    return Found(names, posters);
  }

  // ---------------------------------------------------------------------------
  // Properties of the picks

  /** Top-k: every pick scores at least as high as every row entry that is neither picked
      nor the skipped top-ranked one. */
  lemma TopPicksAreTopK(row: seq<int>, j: nat)
    requires j < |row|
    requires j != Rank(row)[0].index
    requires forall k :: 0 <= k < |TopPicks(row)| ==> TopPicks(row)[k].index != j
    ensures forall k :: 0 <= k < |TopPicks(row)| ==> TopPicks(row)[k].score >= row[j]
  {
    var ranking := Rank(row);
    var picks := TopPicks(row);
    TopPicksSlice(row);
    var m :| 0 <= m < |ranking| && ranking[m] == Scored(j, row[j]);
    assert m != 0;
    if m <= |picks| {
      assert false;
    }
    forall k | 0 <= k < |picks|
      ensures picks[k].score >= row[j]
    {
      assert picks[k] == ranking[k + 1];
      assert Before(ranking[k + 1], ranking[m]);
    }
  }

  /** When the query's score is strictly the largest of its row, the query is not among the picks. */
  lemma QueryExcludedWhenStrictMax(row: seq<int>, q: nat)
    requires q < |row|
    requires forall j :: 0 <= j < |row| && j != q ==> row[j] < row[q]
    ensures forall k :: 0 <= k < |TopPicks(row)| ==> TopPicks(row)[k].index != q
  {
    TopRanked(row, q);
    var ranking := Rank(row);
    var picks := TopPicks(row);
    TopPicksSlice(row);
    forall k | 0 <= k < |picks|
      ensures picks[k].index != q
    {
      assert picks[k] == ranking[k + 1];
    }
  }

  /** When the query ties the row's maximum with exactly one lower-indexed movie, that movie
      is the one skipped and the query itself is recommended first. */
  lemma QueryPickedOnTie(row: seq<int>, p: nat, q: nat)
    requires p < q < |row|
    requires row[p] == row[q]
    requires forall j :: 0 <= j < |row| && j != p && j != q ==> row[j] < row[q]
    ensures |TopPicks(row)| >= 1 && TopPicks(row)[0] == Scored(q, row[q])
  {
    var ranking := Rank(row);
    TopRanked(row, p);
    TopPicksSlice(row);
    var m :| 0 <= m < |ranking| && ranking[m] == Scored(q, row[q]);
    assert m != 0;
    assert Before(ranking[0], ranking[1]);
    assert ranking[1].index != p;
  }

  /** On a strictly decreasing row the ranking is the row's own order, so the picks are the
      entries at positions 1 to 5: a six-movie catalog whose query row is [10, 9, 8, 7, 6, 5]
      yields the other five in that exact order. */
  lemma DecreasingRowPicks(row: seq<int>)
    requires forall i, j :: 0 <= i < j < |row| ==> row[i] > row[j]
    ensures forall k :: 0 <= k < |TopPicks(row)| ==> TopPicks(row)[k] == Scored(k + 1, row[k + 1])
  {
    var pairs := Enumerate(row);
    assert Ranked(pairs);
    RankIsStableSort(row, pairs);
    TopPicksSlice(row);
  }
}

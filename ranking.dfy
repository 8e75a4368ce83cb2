/**
 * The like-based ranking subquery
 * `SELECT film_id FROM film_likes GROUP BY film_id ORDER BY COUNT(user_id) DESC LIMIT ?`,
 * abstracted as a relation between the `film_likes` table, the limit and the
 * film ids the database may return: ties are broken arbitrarily.
 */
module Ranking {
  import opened Model
  import opened Sequences
  import opened Tables

  /** The number of like rows of a film. */
  function LikeCount(likes: seq<Row>, filmId: int): nat {
    |Select(likes, filmId)|
  }

  /** The films that have at least one like row. */
  function LikedFilms(likes: seq<Row>): set<int> {
    set r | r in likes :: r.0
  }

  /**
   * `ranking` is an answer of the subquery for `count`: distinct liked films,
   * `count` of them or all when fewer are liked, each liked at least as often
   * as every liked film left out.
   */
  predicate IsTopLiked(ranking: seq<int>, likes: seq<Row>, count: int) {
    && count >= 0
    && NoDuplicates(ranking)
    && (forall i :: 0 <= i < |ranking| ==> ranking[i] in LikedFilms(likes))
    && |ranking| == Min(count, |LikedFilms(likes)|)
    && (forall i, g :: 0 <= i < |ranking| && g in LikedFilms(likes) && g !in ranking ==>
          LikeCount(likes, ranking[i]) >= LikeCount(likes, g))
  }

  /** A liked film strictly more popular than a ranked one is ranked too. */
  lemma MorePopularIsRanked(ranking: seq<int>, likes: seq<Row>, count: int, f: int, g: int)
    requires IsTopLiked(ranking, likes, count)
    requires g in ranking && f in LikedFilms(likes)
    requires LikeCount(likes, f) > LikeCount(likes, g)
    ensures f in ranking
  {
  }

  /** When the limit admits every liked film, the ranking holds exactly the liked films. */
  lemma AllLikedFilmsRanked(ranking: seq<int>, likes: seq<Row>, count: int)
    requires IsTopLiked(ranking, likes, count)
    requires count >= |LikedFilms(likes)|
    ensures Elements(ranking) == LikedFilms(likes)
  {
    DistinctCardinality(ranking);
    var liked := LikedFilms(likes);
    var ranked := Elements(ranking);
    assert ranked <= liked;
    assert liked == ranked + (liked - ranked);
    assert |liked - ranked| == 0;
  }

  /**
   * The ranking never holds more than `count` films, and holds fewer only when
   * fewer films are liked.
   */
  lemma RankingSize(ranking: seq<int>, likes: seq<Row>, count: int)
    requires IsTopLiked(ranking, likes, count)
    ensures |Elements(ranking)| <= count
    ensures |Elements(ranking)| < count ==> Elements(ranking) == LikedFilms(likes)
  {
    DistinctCardinality(ranking);
    if |ranking| < count {
      AllLikedFilmsRanked(ranking, likes, count);
    }
  }
}

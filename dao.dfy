/**
 * The JDBC data-access objects over the `friends`, `film_likes`, `films` and
 * `film_genre` tables. Each table is a sequence of rows; the foreign keys the
 * database enforces are stated as class invariants and as the condition under
 * which an INSERT is accepted.
 */
module Dao {
  import opened Model
  import opened Sequences
  import opened Tables
  import opened Ranking
  import opened GenreLists
  import opened FilmRows

  /** The ids of a list of users, position by position. */
  function UserIds(us: seq<User>): (r: seq<int>)
    ensures |r| == |us| && forall i :: 0 <= i < |us| ==> r[i] == us[i].id
  {
    seq(|us|, i requires 0 <= i < |us| => us[i].id)
  }

  /**
   * `FriendsDaoImpl`: friendship as a directed edge table. Adding a friend
   * inserts one row; removing one deletes the matching rows, if any.
   */
  class FriendsDaoImpl {
    /** The `users` table by id; the records' friend sets are not stored there. */
    var users: map<int, User>
    /** `friends(user_id, friend_id)`. */
    var rows: seq<Row>

    ghost predicate Valid()
      reads this
    {
      && (forall id :: id in users ==> users[id].id == id)
      && (forall row :: row in rows ==> row.0 in users && row.1 in users)
    }

    /** The database accepts an edge between two existing users. */
    predicate Accepts(userId: int, friendId: int)
      reads this`users
    {
      userId in users && friendId in users
    }

    constructor (users: map<int, User>)
      requires forall id :: id in users ==> users[id].id == id
      ensures this.users == users && rows == []
      ensures Valid()
    {
      this.users := users;
      rows := [];
    }

    /** Inserts the one row `(userId, friendId)`; a rejected INSERT becomes NotFound. */
    method AddToFriends(userId: int, friendId: int) returns (o: Outcome)
      requires Valid()
      modifies this
      ensures Valid() && users == old(users)
      ensures o.Pass? <==> old(Accepts(userId, friendId))
      ensures o.Pass? ==> rows == old(rows) + [(userId, friendId)]
      ensures o.Fail? ==> o.error == NotFoundError(FriendUserInvalid) && rows == old(rows)
    {
      if !Accepts(userId, friendId) {
        return Fail(NotFoundError(FriendUserInvalid));
      }
      rows := rows + [(userId, friendId)];
      o := Pass;
    }

    /**
     * Inserts one row per element of `friends`, in the set's iteration order,
     * stopping at the first rejected INSERT; the rows inserted before it stay.
     */
    method AddFriendSetToUser(userId: int, friends: set<int>) returns (o: Outcome, ghost added: seq<int>)
      requires Valid()
      modifies this
      ensures Valid() && users == old(users)
      ensures rows == old(rows) + Pairs(userId, added)
      ensures NoDuplicates(added) && Elements(added) <= friends
      ensures o.Pass? <==> forall f :: f in friends ==> old(Accepts(userId, f))
      ensures o.Pass? ==> Elements(added) == friends
      ensures o.Fail? ==> o.error == NotFoundError(FriendSetUserInvalid)
    {
      var order := Enumerate(friends);
      added := [];
      for k := 0 to |order|
        invariant Valid() && users == old(users)
        invariant added == order[..k]
        invariant rows == old(rows) + Pairs(userId, added)
        invariant forall f :: f in added ==> Accepts(userId, f)
      {
        var friend := order[k];
        assert friend in Elements(order);
        if !Accepts(userId, friend) {
          assert !old(Accepts(userId, friend));
          return Fail(NotFoundError(FriendSetUserInvalid)), added;
        }
        assert Pairs(userId, added + [friend]) == Pairs(userId, added) + [(userId, friend)];
        assert order[..k + 1] == order[..k] + [friend];
        rows := rows + [(userId, friend)];
        added := added + [friend];
      }
      assert added == order;
      assert forall f :: f in friends ==> f in Elements(order);
      o := Pass;
    }

    /** Deletes every row `(userId, friendId)`; an absent pair is no error and changes nothing. */
    method DeleteFromFriends(userId: int, friendId: int)
      requires Valid()
      modifies this
      ensures Valid() && users == old(users)
      ensures rows == DeleteRow(old(rows), (userId, friendId))
      ensures old((userId, friendId) !in rows) ==> rows == old(rows)
    {
      if (userId, friendId) !in rows {
        DeleteAbsentRow(rows, (userId, friendId));
      }
      rows := DeleteRow(rows, (userId, friendId));
    }

    /** `SELECT friend_id FROM friends WHERE user_id = ?`. */
    function GetUserFriendIdSet(userId: int): (r: seq<int>)
      reads this
      ensures forall f :: f in r <==> (userId, f) in rows
      ensures |r| <= |rows|
    {
      Select(rows, userId)
    }

    /** A `users` record with its friend set read back from the edge table. */
    function MakeUser(id: int): (u: User)
      requires id in users
      reads this
      ensures u == users[id].(friends := u.friends)
      ensures forall f :: f in u.friends <==> (id, f) in rows
    {
      users[id].(friends := Elements(GetUserFriendIdSet(id)))
    }

    /**
     * The join of the user's edges with `users`: one user per row of
     * `userId`, in no promised order; empty for an unknown user.
     */
    function GetUserFriendList(userId: int): (r: seq<User>)
      requires Valid()
      reads this
      ensures multiset(UserIds(r)) == multiset(GetUserFriendIdSet(userId))
      ensures forall i :: 0 <= i < |r| ==> (userId, r[i].id) in rows
      ensures forall i :: 0 <= i < |r| ==> r[i].id in users && r[i] == MakeUser(r[i].id)
      ensures userId !in users ==> r == []
    {
      var ids := GetUserFriendIdSet(userId);
      if userId !in users then
        SelectAbsentKey(rows, userId);
        []
      else
        assert forall i :: 0 <= i < |ids| ==> (userId, ids[i]) in rows;
        var r := seq(|ids|, i requires 0 <= i < |ids| && ids[i] in users reads this => MakeUser(ids[i]));
        assert UserIds(r) == ids;
        r
    }

    /** The friend ids two users have in common. */
    function CommonFriendIds(userId: int, otherUserId: int): (r: set<int>)
      reads this
      ensures forall f :: f in r <==> (userId, f) in rows && (otherUserId, f) in rows
    {
      Elements(GetUserFriendIdSet(userId)) * Elements(GetUserFriendIdSet(otherUserId))
    }

    /**
     * The INTERSECT of the two friend-list joins: each common friend once, in
     * an unspecified order.
     */
    method GetCommonFriends(userId: int, otherUserId: int) returns (r: seq<User>)
      requires Valid()
      ensures |r| == |CommonFriendIds(userId, otherUserId)|
      ensures forall i :: 0 <= i < |r| ==>
        r[i].id in CommonFriendIds(userId, otherUserId) && r[i].id in users && r[i] == MakeUser(r[i].id)
      ensures forall f :: f in CommonFriendIds(userId, otherUserId) ==> exists i :: 0 <= i < |r| && r[i].id == f
      ensures forall i, j :: 0 <= i < j < |r| ==> r[i].id != r[j].id
    {
      var common := CommonFriendIds(userId, otherUserId);
      var ids := Enumerate(common);
      forall i | 0 <= i < |ids| ensures ids[i] in common && ids[i] in users {
        assert ids[i] in Elements(ids);
      }
      r := seq(|ids|, i requires 0 <= i < |ids| && ids[i] in users reads this => MakeUser(ids[i]));
      assert forall i :: 0 <= i < |r| ==> r[i].id == ids[i];
      forall f | f in common ensures exists i :: 0 <= i < |r| && r[i].id == f {
        assert f in Elements(ids);
        var i :| 0 <= i < |ids| && ids[i] == f;
        assert r[i].id == f;
      }
    }
  }

  /** `FilmLikesDaoImpl`: the `film_likes(film_id, user_id)` table. */
  class FilmLikesDaoImpl {
    /** The ids of the `films` and `users` tables the rows refer to. */
    var films: set<int>
    var users: set<int>
    var rows: seq<Row>

    ghost predicate Valid()
      reads this
    {
      forall row :: row in rows ==> row.0 in films && row.1 in users
    }

    /** The database accepts a like of an existing film by an existing user. */
    predicate Accepts(filmId: int, userId: int)
      reads this`films, this`users
    {
      filmId in films && userId in users
    }

    constructor (films: set<int>, users: set<int>)
      ensures this.films == films && this.users == users && rows == []
      ensures Valid()
    {
      this.films := films;
      this.users := users;
      rows := [];
    }

    /** `SELECT user_id FROM film_likes WHERE film_id = ?`. */
    function GetFilmLikes(filmId: int): (r: seq<int>)
      reads this
      ensures forall u :: u in r <==> (filmId, u) in rows
      ensures |r| <= |rows|
    {
      Select(rows, filmId)
    }

    /** Inserts the row `(filmId, userId)`; a rejected INSERT becomes NotFound. */
    method LikeFilm(filmId: int, userId: int) returns (o: Outcome)
      requires Valid()
      modifies this
      ensures Valid() && films == old(films) && users == old(users)
      ensures o.Pass? <==> old(Accepts(filmId, userId))
      ensures o.Pass? ==> rows == old(rows) + [(filmId, userId)]
      ensures o.Fail? ==> o.error == NotFoundError(FilmOrUserInvalid) && rows == old(rows)
    {
      if !Accepts(filmId, userId) {
        return Fail(NotFoundError(FilmOrUserInvalid));
      }
      rows := rows + [(filmId, userId)];
      o := Pass;
    }

    /** Deletes every row `(filmId, userId)`; a missing pair is no error. */
    method RevokeLikeToFilm(filmId: int, userId: int)
      requires Valid()
      modifies this
      ensures Valid() && films == old(films) && users == old(users)
      ensures rows == DeleteRow(old(rows), (filmId, userId))
      ensures old((filmId, userId) !in rows) ==> rows == old(rows)
    {
      if (filmId, userId) !in rows {
        DeleteAbsentRow(rows, (filmId, userId));
      }
      rows := DeleteRow(rows, (filmId, userId));
    }
  }

  /** A like followed by its revocation, on a pair not liked before, leaves the film's likes as they were. */
  lemma LikeThenRevokeRestoresLikes(rows: seq<Row>, filmId: int, userId: int)
    requires (filmId, userId) !in rows
    ensures Select(DeleteRow(rows + [(filmId, userId)], (filmId, userId)), filmId) == Select(rows, filmId)
  {
    InsertThenDeleteRestores(rows, (filmId, userId));
  }

  /** The user ids of a like table are never 0, the value that stands for NULL in a join. */
  ghost predicate LikesWellFormed(likes: seq<Row>, films: map<int, FilmRow>) {
    forall j :: 0 <= j < |likes| ==> likes[j].0 in films && likes[j].1 != 0
  }

  /** Rows inserted under a key no row carries yet are exactly what that key selects. */
  lemma NewKeyRows(rows: seq<Row>, films: map<int, FilmRow>, key: int, vals: seq<int>)
    requires forall row :: row in rows ==> row.0 in films
    requires key !in films
    ensures Select(rows + Pairs(key, vals), key) == vals
  {
    forall i | 0 <= i < |rows| ensures rows[i].0 != key {
      assert rows[i] in rows;
    }
    SelectAbsentKey(rows, key);
    SelectAppendPairs(rows, key, vals, key);
  }

  /**
   * `FilmDbDaoImpl`: films read through the join of `films`, `mpa`,
   * `film_genre`, `genres` and `film_likes`. The join's rows are inputs of the
   * reading methods, tied to the tables by `IsJoin`.
   */
  class FilmDbDaoImpl {
    /** The `films` table by id. */
    var films: map<int, FilmRow>
    /** `film_genre(film_id, genre_id)`. */
    var filmGenres: seq<Row>

    ghost predicate Valid()
      reads this
    {
      forall row :: row in filmGenres ==> row.0 in films && row.1 != 0
    }

    constructor (films: map<int, FilmRow>)
      ensures this.films == films && filmGenres == []
      ensures Valid()
    {
      this.films := films;
      filmGenres := [];
    }

    /** The `extractAllFilms` extractor: the grouped films, in the map's unspecified order. */
    method ExtractAllFilms(rows: seq<JoinRow>) returns (r: seq<Film>)
      ensures |r| == |FilmIdsOf(rows)|
      ensures forall i :: 0 <= i < |r| ==> r[i].id in FilmIdsOf(rows) && r[i] == Assembled(rows, r[i].id)
      ensures forall id :: id in FilmIdsOf(rows) ==> exists i :: 0 <= i < |r| && r[i].id == id
      ensures forall i, j :: 0 <= i < j < |r| ==> r[i].id != r[j].id
    {
      var _, filmMap := MakeFilm(rows);
      ghost var ids;
      r, ids := MapValues(filmMap);
      assert forall i :: 0 <= i < |r| ==> r[i].id == ids[i];
      forall id | id in FilmIdsOf(rows) ensures exists i :: 0 <= i < |r| && r[i].id == id {
        assert id in Elements(ids);
        var i :| 0 <= i < |ids| && ids[i] == id;
        assert r[i].id == id;
      }
    }

    /** A film of the join `WHERE f.film_id = ?`; no rows means the id is unknown. */
    method GetFilmById(filmId: int, rows: seq<JoinRow>, likes: seq<Row>) returns (r: Result<Film>)
      requires Valid() && LikesWellFormed(likes, films)
      requires IsJoin(rows, if filmId in films then {filmId} else {}, films, filmGenres, likes)
      ensures r.Err? <==> filmId !in films
      ensures r.Err? ==> r.error == NotFoundError(FilmIdInvalid)
      ensures r.Ok? ==> Describes(r.value, filmId, films, filmGenres, likes) && NoDuplicates(r.value.genres)
    {
      var last, _ := MakeFilm(rows);
      if last.None? {
        return Err(NotFoundError(FilmIdInvalid));
      }
      assert rows[|rows| - 1].filmId in FilmIdsOf(rows);
      AssembledDescribes(rows, {filmId}, films, filmGenres, likes, filmId);
      r := Ok(last.value);
    }

    /** Every film of the catalogue, once each. */
    method GetAllFilms(rows: seq<JoinRow>, likes: seq<Row>) returns (r: seq<Film>)
      requires Valid() && LikesWellFormed(likes, films)
      requires IsJoin(rows, films.Keys, films, filmGenres, likes)
      ensures |r| == |films|
      ensures forall i :: 0 <= i < |r| ==> Describes(r[i], r[i].id, films, filmGenres, likes)
      ensures forall id :: id in films ==> exists i :: 0 <= i < |r| && r[i].id == id
      ensures forall i, j :: 0 <= i < j < |r| ==> r[i].id != r[j].id
    {
      r := ExtractAllFilms(rows);
      AllAssembledDescribe(rows, films.Keys, films, filmGenres, likes, r);
    }

    /**
     * The films of the ranking subquery; when that is empty, the films of the
     * first `count` rows of the whole join (`LIMIT` counts rows, not films).
     */
    method GetTopPopFilms(count: int, likes: seq<Row>, ranking: seq<int>, likedRows: seq<JoinRow>, catalogueRows: seq<JoinRow>)
      returns (r: seq<Film>)
      requires Valid() && LikesWellFormed(likes, films)
      requires IsTopLiked(ranking, likes, count)
      requires IsJoin(likedRows, Elements(ranking), films, filmGenres, likes)
      requires IsJoin(catalogueRows, films.Keys, films, filmGenres, likes)
      ensures ranking != [] ==> |r| == |ranking| && |r| <= count
      ensures ranking != [] ==> forall i :: 0 <= i < |r| ==>
        r[i].id in ranking && r[i].id in LikedFilms(likes) && Describes(r[i], r[i].id, films, filmGenres, likes)
      ensures ranking != [] ==> forall id :: id in ranking ==> exists i :: 0 <= i < |r| && r[i].id == id
      ensures ranking == [] ==> |r| <= count && forall i :: 0 <= i < |r| ==> r[i].id in films
      ensures ranking == [] && count > 0 && |films| > 0 ==> |r| > 0
      ensures forall i, j :: 0 <= i < j < |r| ==> r[i].id != r[j].id
    {
      DistinctCardinality(ranking);
      var topList := ExtractAllFilms(likedRows);
      if |topList| == 0 {
        var n := Min(count, |catalogueRows|);
        if |films| > 0 {
          var id :| id in films;
        }
        PrefixFilmIds(catalogueRows, n);
        topList := ExtractAllFilms(catalogueRows[..n]);
      } else {
        AllAssembledDescribe(likedRows, Elements(ranking), films, filmGenres, likes, topList);
      }
      r := topList;
    }

    /**
     * Inserts the film's columns under the key the database generates, sets its
     * rating to the looked-up one and inserts one genre row per listed genre,
     * without de-duplication.
     */
    method AddFilm(film: Film, key: int, mpaById: int -> Mpa) returns (r: Film)
      requires Valid() && key !in films
      requires forall i :: 0 <= i < |film.genres| ==> film.genres[i].id != 0
      modifies this
      ensures Valid()
      ensures r == film.(id := key, mpa := mpaById(film.mpa.id))
      ensures films == old(films)[key := FilmRow(film.name, film.description, film.releaseDate, film.duration, r.mpa.id)]
      ensures filmGenres == old(filmGenres) + Pairs(key, IdsOf(film.genres))
      ensures Select(filmGenres, key) == IdsOf(film.genres)
    {
      var mpa := mpaById(film.mpa.id);
      var inserted := Pairs(key, IdsOf(film.genres));
      NewKeyRows(filmGenres, films, key, IdsOf(film.genres));
      assert forall row :: row in inserted ==> row.0 == key && row.1 != 0;
      // The INSERT of the columns and the UPDATE of the rating, as one step.
      films := films[key := FilmRow(film.name, film.description, film.releaseDate, film.duration, mpa.id)];
      filmGenres := filmGenres + inserted;
      r := film.(id := key, mpa := mpa);
    }

    /**
     * Rewrites the film's columns, sets its rating to the looked-up one, and
     * replaces its genre rows by the de-duplicated, looked-up genre list. An
     * UPDATE that matches no row is NotFound and changes nothing.
     */
    method UpdateFilm(film: Film, mpaById: int -> Mpa, genreById: int -> Genre) returns (r: Result<Film>)
      requires Valid()
      requires forall id :: genreById(id).id != 0
      modifies this
      ensures Valid()
      ensures film.id !in old(films) ==>
        r == Err(NotFoundError(FilmDataInvalid)) && films == old(films) && filmGenres == old(filmGenres)
      ensures film.id in old(films) ==>
        var kept := Lookup(Dedup(IdsOf(film.genres)), genreById);
        && r == Ok(film.(mpa := mpaById(film.mpa.id), genres := kept))
        && films == old(films)[film.id := FilmRow(film.name, film.description, film.releaseDate, film.duration, mpaById(film.mpa.id).id)]
        && filmGenres == DeleteKey(old(filmGenres), film.id) + Pairs(film.id, IdsOf(kept))
    {
      if film.id !in films {
        return Err(NotFoundError(FilmDataInvalid));
      }
      films := films[film.id := FilmRow(film.name, film.description, film.releaseDate, film.duration, films[film.id].mpaId)];
      var mpa := mpaById(film.mpa.id);
      films := films[film.id := films[film.id].(mpaId := mpa.id)];
      var kept := DeduplicateGenres(film.genres, genreById);
      var inserted := Pairs(film.id, IdsOf(kept));
      assert forall row :: row in inserted ==> row.0 == film.id && row.1 != 0;
      filmGenres := DeleteKey(filmGenres, film.id) + inserted;
      r := Ok(film.(mpa := mpa, genres := kept));
    }
  }
}

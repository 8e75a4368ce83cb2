/**
 * The film and user stores: the two in-memory stores, each an id counter
 * and a map of records, and the JDBC film store that assembles a film from
 * per-table queries.
 */
module Storage {
  import opened Model
  import opened Sequences
  import opened Tables
  import opened Ranking
  import opened GenreLists
  import Dao

  /** Friendship between the users of a map goes both ways. */
  ghost predicate SymmetricFriends(m: map<int, User>) {
    forall a, b :: a in m && b in m && b in m[a].friends ==> a in m[b].friends
  }

  /** The users after `a` adds `b` and `b` adds `a` to their friend sets. */
  function Befriend(m: map<int, User>, a: int, b: int): (r: map<int, User>)
    ensures r.Keys == m.Keys
    ensures forall u :: u in m ==> r[u] == m[u].(friends := r[u].friends)
    ensures forall u, f :: u in m ==>
      (f in r[u].friends <==> f in m[u].friends || (u == a && f == b) || (u == b && f == a))
  {
    map u | u in m :: m[u].(friends := m[u].friends + (if u == a then {b} else {}) + (if u == b then {a} else {}))
  }

  /** The users after `a` drops `b` and `b` drops `a` from their friend sets. */
  function Unfriend(m: map<int, User>, a: int, b: int): (r: map<int, User>)
    ensures r.Keys == m.Keys
    ensures forall u :: u in m ==> r[u] == m[u].(friends := r[u].friends)
    ensures forall u, f :: u in m ==>
      (f in r[u].friends <==> f in m[u].friends && !(u == a && f == b) && !(u == b && f == a))
  {
    map u | u in m :: m[u].(friends := m[u].friends - (if u == a then {b} else {}) - (if u == b then {a} else {}))
  }

  /** `Befriend` is the two in-place set updates of `addToFriends`, one after the other. */
  lemma BefriendInPlace(m: map<int, User>, a: int, b: int)
    requires a in m && b in m
    ensures var m1 := m[a := m[a].(friends := m[a].friends + {b})];
      Befriend(m, a, b) == m1[b := m1[b].(friends := m1[b].friends + {a})]
  {
    var m1 := m[a := m[a].(friends := m[a].friends + {b})];
    var m2 := m1[b := m1[b].(friends := m1[b].friends + {a})];
    var r := Befriend(m, a, b);
    forall u | u in m ensures r[u] == m2[u] {
      assert r[u].friends == m2[u].friends;
    }
  }

  /** `Unfriend` is the two in-place set updates of `deleteFromFriends`, one after the other. */
  lemma UnfriendInPlace(m: map<int, User>, a: int, b: int)
    requires a in m && b in m
    ensures var m1 := m[a := m[a].(friends := m[a].friends - {b})];
      Unfriend(m, a, b) == m1[b := m1[b].(friends := m1[b].friends - {a})]
  {
    var m1 := m[a := m[a].(friends := m[a].friends - {b})];
    var m2 := m1[b := m1[b].(friends := m1[b].friends - {a})];
    var r := Unfriend(m, a, b);
    forall u | u in m ensures r[u] == m2[u] {
      assert r[u].friends == m2[u].friends;
    }
  }

  lemma BefriendKeepsSymmetry(m: map<int, User>, a: int, b: int)
    requires SymmetricFriends(m)
    ensures SymmetricFriends(Befriend(m, a, b))
  {
  }

  lemma UnfriendKeepsSymmetry(m: map<int, User>, a: int, b: int)
    requires SymmetricFriends(m)
    ensures SymmetricFriends(Unfriend(m, a, b))
  {
  }

  /** Befriending users who already are friends both ways changes nothing. */
  lemma BefriendFriends(m: map<int, User>, a: int, b: int)
    requires a in m && b in m && b in m[a].friends && a in m[b].friends
    ensures Befriend(m, a, b) == m
  {
    var r := Befriend(m, a, b);
    forall u | u in m ensures r[u] == m[u] {
      assert r[u].friends == m[u].friends;
    }
  }

  /** Friendship is added the same way whichever user asks. */
  lemma BefriendCommutes(m: map<int, User>, a: int, b: int)
    ensures Befriend(m, a, b) == Befriend(m, b, a)
  {
    var r, r' := Befriend(m, a, b), Befriend(m, b, a);
    forall u | u in m ensures r[u] == r'[u] {
      assert r[u].friends == r'[u].friends;
    }
  }

  /** Removing a friendship just added between two users who were not friends restores the users. */
  lemma UnfriendUndoesBefriend(m: map<int, User>, a: int, b: int)
    requires a in m && b in m && b !in m[a].friends && a !in m[b].friends
    ensures Unfriend(Befriend(m, a, b), a, b) == m
  {
    var r := Unfriend(Befriend(m, a, b), a, b);
    forall u | u in m ensures r[u] == m[u] {
      assert r[u].friends == m[u].friends;
    }
  }

  /**
   * `InMemoryUserStorage`: users under consecutive ids 1, 2, 3, ..., with a
   * friendship that each user record holds as a set of friend ids.
   */
  class InMemoryUserStorage {
    /** The last id handed out. */
    var userId: int
    var userMap: map<int, User>

    /** Every stored user sits under its own id, which the counter has already handed out. */
    ghost predicate Valid()
      reads this
    {
      && userId >= 0
      && forall id :: id in userMap ==> 1 <= id <= userId && userMap[id].id == id
    }

    /** Friendship between stored users goes both ways. */
    ghost predicate Symmetric()
      reads this
    {
      SymmetricFriends(userMap)
    }

    constructor ()
      ensures Valid() && userId == 0 && userMap == map[]
    {
      userId := 0;
      userMap := map[];
    }

    /** `userMap.get`: the stored record, or null. */
    function GetUserById(id: int): (r: Option<User>)
      requires Valid()
      reads this
      ensures r.Some? <==> id in userMap
      ensures r.Some? ==> r.value == userMap[id] && r.value.id == id
      ensures id < 1 || id > userId ==> r.None?
    {
      if id in userMap then Some(userMap[id]) else None
    }

    /** `new ArrayList<>(userMap.values())`: every stored user once, in an unspecified order. */
    method GetAllUsers() returns (r: seq<User>)
      requires Valid()
      ensures |r| == |userMap|
      ensures forall i :: 0 <= i < |r| ==> r[i].id in userMap && r[i] == userMap[r[i].id]
      ensures forall id :: id in userMap ==> exists i :: 0 <= i < |r| && r[i].id == id
      ensures forall i, j :: 0 <= i < j < |r| ==> r[i].id != r[j].id
    {
      ghost var ids;
      r, ids := MapValues(userMap);
      assert forall i :: 0 <= i < |r| ==> r[i].id == ids[i];
      forall id | id in userMap ensures exists i :: 0 <= i < |r| && r[i].id == id {
        assert id in Elements(ids);
        var i :| 0 <= i < |ids| && ids[i] == id;
        assert r[i].id == id;
      }
    }

    /** Hands out the next id, stores the user under it and returns the stored record. */
    method CreateUser(user: User) returns (r: User)
      requires Valid()
      modifies this
      ensures Valid()
      ensures userId == old(userId) + 1
      ensures r == user.(id := userId)
      ensures userMap == old(userMap)[userId := r]
      ensures r.id !in old(userMap) && forall id :: id in old(userMap) ==> id < r.id
    {
      userId := userId + 1;
      r := user.(id := userId);
      userMap := userMap[userId := r];
    }

    /** Replaces the record under the user's id; null, and no change, for an unknown id. */
    method UpdateUser(user: User) returns (r: Option<User>)
      requires Valid()
      modifies this
      ensures Valid() && userId == old(userId)
      ensures user.id !in old(userMap) ==> r.None? && userMap == old(userMap)
      ensures user.id in old(userMap) ==> r == Some(user) && userMap == old(userMap)[user.id := user]
    {
      if user.id !in userMap {
        return None;
      }
      userMap := userMap[user.id := user];
      r := Some(userMap[user.id]);
    }

    /**
     * Adds each user to the other's friend set. Both users must be stored:
     * the source dereferences both records.
     */
    method AddToFriends(id: int, friendId: int)
      requires Valid() && id in userMap && friendId in userMap
      modifies this
      ensures Valid() && userId == old(userId)
      ensures userMap == Befriend(old(userMap), id, friendId)
      ensures friendId in userMap[id].friends && id in userMap[friendId].friends
      ensures old(Symmetric()) ==> Symmetric()
      ensures old(friendId in userMap[id].friends && id in userMap[friendId].friends) ==> userMap == old(userMap)
    {
      ghost var before := userMap;
      BefriendInPlace(userMap, id, friendId);
      var user := userMap[id];
      userMap := userMap[id := user.(friends := user.friends + {friendId})];
      var friend := userMap[friendId];
      userMap := userMap[friendId := friend.(friends := friend.friends + {id})];
      if SymmetricFriends(before) {
        BefriendKeepsSymmetry(before, id, friendId);
      }
      if friendId in before[id].friends && id in before[friendId].friends {
        BefriendFriends(before, id, friendId);
      }
    }

    /**
     * Removes each user from the other's friend set; removing a user who is
     * not a friend is a validation error that changes nothing. The user must
     * be stored, and so must the friend when there is one to remove.
     */
    method DeleteFromFriends(id: int, friendId: int) returns (o: Outcome)
      requires Valid() && id in userMap
      requires friendId in userMap[id].friends ==> friendId in userMap
      modifies this
      ensures Valid() && userId == old(userId)
      ensures friendId !in old(userMap[id].friends) ==> o == Fail(ValidationError(NotAFriend)) && userMap == old(userMap)
      ensures friendId in old(userMap[id].friends) ==> o == Pass && userMap == Unfriend(old(userMap), id, friendId)
      ensures o.Pass? ==> friendId !in userMap[id].friends && id !in userMap[friendId].friends
      ensures old(Symmetric()) ==> Symmetric()
    {
      var user := userMap[id];
      if friendId !in user.friends {
        return Fail(ValidationError(NotAFriend));
      }
      ghost var before := userMap;
      UnfriendInPlace(userMap, id, friendId);
      userMap := userMap[id := user.(friends := user.friends - {friendId})];
      var friend := userMap[friendId];
      userMap := userMap[friendId := friend.(friends := friend.friends - {id})];
      if SymmetricFriends(before) {
        UnfriendKeepsSymmetry(before, id, friendId);
      }
      o := Pass;
    }

    /**
     * One lookup per friend id of the user, in the set's iteration order; an
     * id with no stored user yields null. `ids` is that order.
     */
    method GetUserFriendList(id: int) returns (r: seq<Option<User>>, ghost ids: seq<int>)
      requires Valid() && id in userMap
      ensures |r| == |userMap[id].friends|
      ensures NoDuplicates(ids) && Elements(ids) == userMap[id].friends && |ids| == |r|
      ensures forall i :: 0 <= i < |r| ==> r[i] == GetUserById(ids[i])
      ensures (forall f :: f in userMap[id].friends ==> f in userMap) ==> forall i :: 0 <= i < |r| ==> r[i].Some?
    {
      var friendIds := Enumerate(userMap[id].friends);
      r := [];
      for k := 0 to |friendIds|
        invariant |r| == k
        invariant forall i :: 0 <= i < k ==> r[i] == GetUserById(friendIds[i])
      {
        r := r + [GetUserById(friendIds[k])];
      }
      ids := friendIds;
      forall i | 0 <= i < |r| ensures ids[i] in userMap[id].friends {
        assert ids[i] in Elements(ids);
      }
    }

    /** The friend ids two users have in common; the same set whichever user comes first. */
    function CommonFriendIds(id: int, otherId: int): (r: set<int>)
      requires id in userMap && otherId in userMap
      reads this
      ensures forall f :: f in r <==> f in userMap[id].friends && f in userMap[otherId].friends
      ensures r == userMap[otherId].friends * userMap[id].friends
    {
      userMap[id].friends * userMap[otherId].friends
    }

    /**
     * One lookup per friend id of the first user that the other user also
     * has, in the first set's iteration order. Both users must be stored.
     */
    method GetCommonFriends(id: int, otherId: int) returns (r: seq<Option<User>>, ghost ids: seq<int>)
      requires Valid() && id in userMap && otherId in userMap
      ensures NoDuplicates(ids) && Elements(ids) == CommonFriendIds(id, otherId)
      ensures |r| == |ids| == |CommonFriendIds(id, otherId)|
      ensures forall i :: 0 <= i < |r| ==> r[i] == GetUserById(ids[i])
    {
      var userFriends := Enumerate(userMap[id].friends);
      var otherUserFriends := userMap[otherId].friends;
      r := [];
      ids := [];
      for k := 0 to |userFriends|
        invariant |r| == |ids|
        invariant NoDuplicates(ids)
        invariant Elements(ids) == Elements(userFriends[..k]) * otherUserFriends
        invariant forall i :: 0 <= i < |r| ==> r[i] == GetUserById(ids[i])
      {
        var friendId := userFriends[k];
        assert userFriends[..k + 1] == userFriends[..k] + [friendId];
        assert friendId !in Elements(userFriends[..k]);
        if friendId in otherUserFriends {
          assert Elements(ids + [friendId]) == Elements(ids) + {friendId};
          r := r + [GetUserById(friendId)];
          ids := ids + [friendId];
        }
      }
      assert userFriends[..|userFriends|] == userFriends;
      DistinctCardinality(ids);
    }
  }

  /** `InMemoryFilmStorage`: films under consecutive ids 1, 2, 3, .... */
  class InMemoryFilmStorage {
    /** The last id handed out. */
    var filmId: int
    var filmMap: map<int, Film>

    /** Every stored film sits under its own id, which the counter has already handed out. */
    ghost predicate Valid()
      reads this
    {
      && filmId >= 0
      && forall id :: id in filmMap ==> 1 <= id <= filmId && filmMap[id].id == id
    }

    constructor ()
      ensures Valid() && filmId == 0 && filmMap == map[]
    {
      filmId := 0;
      filmMap := map[];
    }

    /** `filmMap.get`: the stored record, or null; always null for an id never handed out. */
    function GetFilmById(id: int): (r: Option<Film>)
      requires Valid()
      reads this
      ensures r.Some? <==> id in filmMap
      ensures r.Some? ==> r.value == filmMap[id] && r.value.id == id
      ensures id < 1 || id > filmId ==> r.None?
    {
      if id in filmMap then Some(filmMap[id]) else None
    }

    /** `new ArrayList<>(filmMap.values())`: every stored film once, in an unspecified order. */
    method GetAllFilms() returns (r: seq<Film>)
      requires Valid()
      ensures |r| == |filmMap|
      ensures forall i :: 0 <= i < |r| ==> r[i].id in filmMap && r[i] == filmMap[r[i].id]
      ensures forall id :: id in filmMap ==> exists i :: 0 <= i < |r| && r[i].id == id
      ensures forall i, j :: 0 <= i < j < |r| ==> r[i].id != r[j].id
    {
      ghost var ids;
      r, ids := MapValues(filmMap);
      assert forall i :: 0 <= i < |r| ==> r[i].id == ids[i];
      forall id | id in filmMap ensures exists i :: 0 <= i < |r| && r[i].id == id {
        assert id in Elements(ids);
        var i :| 0 <= i < |ids| && ids[i] == id;
        assert r[i].id == id;
      }
    }

    /** Hands out the next id, stores the film under it and returns the stored record. */
    method AddFilm(film: Film) returns (r: Film)
      requires Valid()
      modifies this
      ensures Valid()
      ensures filmId == old(filmId) + 1
      ensures r == film.(id := filmId)
      ensures filmMap == old(filmMap)[filmId := r]
      ensures r.id !in old(filmMap) && forall id :: id in old(filmMap) ==> id < r.id
    {
      filmId := filmId + 1;
      r := film.(id := filmId);
      filmMap := filmMap[filmId := r];
    }

    /** Replaces the record under the film's id; null, and no change, for an unknown id. */
    method UpdateFilm(film: Film) returns (r: Option<Film>)
      requires Valid()
      modifies this
      ensures Valid() && filmId == old(filmId)
      ensures film.id !in old(filmMap) ==> r.None? && filmMap == old(filmMap)
      ensures film.id in old(filmMap) ==> r == Some(film) && filmMap == old(filmMap)[film.id := film]
    {
      if film.id !in filmMap {
        return None;
      }
      filmMap := filmMap[film.id := film];
      r := Some(filmMap[film.id]);
    }
  }

  /**
   * `FilmDbStorage`: films read with one query per table. The rating comes
   * from `film_mpa`, the likes from the likes DAO and the genres from
   * `film_genre`; the reference tables are the lookups `mpaById` and
   * `genreById`.
   */
  class FilmDbStorage {
    /** The `films` table by id; its `mpaId` column is not read here. */
    var films: map<int, FilmRow>
    /** `film_mpa(film_id, mpa_id)`. */
    var filmMpa: seq<Row>
    /** `film_genre(film_id, genre_id)`. */
    var filmGenres: seq<Row>
    const likesDao: Dao.FilmLikesDaoImpl

    /** The likes DAO refers to the same films. */
    ghost predicate Valid()
      reads this, likesDao
    {
      likesDao.Valid() && likesDao.films == films.Keys
    }

    constructor (films: map<int, FilmRow>, likesDao: Dao.FilmLikesDaoImpl)
      requires likesDao.Valid() && likesDao.films == films.Keys
      ensures this.films == films && filmMpa == [] && filmGenres == [] && this.likesDao == likesDao
      ensures Valid()
    {
      this.films := films;
      filmMpa := [];
      filmGenres := [];
      this.likesDao := likesDao;
    }

    /**
     * The row mapper: a film's columns, the rating of its first `film_mpa`
     * row, its likes and its genres. With no `film_mpa` row the rating query's
     * `get(0)` fails, which is NotFound.
     */
    function MakeFilm(id: int, mpaById: int -> Mpa, genreById: int -> Genre): (r: Result<Film>)
      requires id in films
      reads this, likesDao
      ensures r.Err? <==> Select(filmMpa, id) == []
      ensures r.Err? ==> r.error == NotFoundError(FilmMpaMissing)
      ensures r.Ok? ==>
        && r.value.id == id && r.value.name == films[id].name
        && r.value.description == films[id].description && r.value.releaseDate == films[id].releaseDate
        && r.value.duration == films[id].duration
      ensures r.Ok? ==> r.value.mpa == mpaById(Select(filmMpa, id)[0])
      ensures r.Ok? ==> forall u :: u in r.value.likes <==> (id, u) in likesDao.rows
      ensures r.Ok? ==> r.value.genres == Lookup(Select(filmGenres, id), genreById)
    {
      var mpaIds := Select(filmMpa, id);
      if mpaIds == [] then Err(NotFoundError(FilmMpaMissing))
      else
        var row := films[id];
        Ok(Film(id, row.name, row.description, row.releaseDate, row.duration, mpaById(mpaIds[0]),
          Lookup(Select(filmGenres, id), genreById), Elements(likesDao.GetFilmLikes(id))))
    }

    /** `queryForObject` on `WHERE film_id = ?`: no row is NotFound. */
    function GetFilmById(id: int, mpaById: int -> Mpa, genreById: int -> Genre): (r: Result<Film>)
      reads this, likesDao
      ensures id !in films ==> r == Err(NotFoundError(FilmIdInvalid))
      ensures id in films ==> r == MakeFilm(id, mpaById, genreById)
      ensures r.Ok? ==> id in films && r.value.id == id
    {
      if id !in films then Err(NotFoundError(FilmIdInvalid)) else MakeFilm(id, mpaById, genreById)
    }

    /**
     * Maps each listed film through the row mapper, in order; the first
     * failure ends the query.
     */
    method MakeFilms(ids: seq<int>, mpaById: int -> Mpa, genreById: int -> Genre) returns (r: Result<seq<Film>>)
      requires forall i :: 0 <= i < |ids| ==> ids[i] in films
      ensures r.Ok? <==> forall i :: 0 <= i < |ids| ==> MakeFilm(ids[i], mpaById, genreById).Ok?
      ensures r.Err? ==> r.error == NotFoundError(FilmMpaMissing)
      ensures r.Ok? ==>
        && |r.value| == |ids|
        && forall i :: 0 <= i < |ids| ==> r.value[i] == MakeFilm(ids[i], mpaById, genreById).value
    {
      var list: seq<Film> := [];
      for k := 0 to |ids|
        invariant |list| == k
        invariant forall i :: 0 <= i < k ==>
          MakeFilm(ids[i], mpaById, genreById).Ok? && list[i] == MakeFilm(ids[i], mpaById, genreById).value
      {
        var film := MakeFilm(ids[k], mpaById, genreById);
        if film.Err? {
          return Err(film.error);
        }
        list := list + [film.value];
      }
      r := Ok(list);
    }

    /** `SELECT * FROM films`: every film once, in an unspecified order. */
    method GetAllFilms(mpaById: int -> Mpa, genreById: int -> Genre) returns (r: Result<seq<Film>>, ghost ids: seq<int>)
      ensures NoDuplicates(ids) && Elements(ids) == films.Keys
      ensures r.Ok? <==> forall id :: id in films ==> MakeFilm(id, mpaById, genreById).Ok?
      ensures r.Err? ==> r.error == NotFoundError(FilmMpaMissing)
      ensures r.Ok? ==>
        && |r.value| == |ids| == |films|
        && forall i :: 0 <= i < |ids| ==> ids[i] in films && r.value[i] == MakeFilm(ids[i], mpaById, genreById).value
    {
      var order := Enumerate(films.Keys);
      ids := order;
      forall i | 0 <= i < |ids| ensures ids[i] in films {
        assert ids[i] in Elements(ids);
      }
      r := MakeFilms(order, mpaById, genreById);
      if r.Err? {
        ghost var i :| 0 <= i < |ids| && MakeFilm(ids[i], mpaById, genreById).Err?;
      } else {
        forall id | id in films ensures MakeFilm(id, mpaById, genreById).Ok? {
          assert id in Elements(ids);
        }
      }
    }

    /**
     * The films whose ids the ranking subquery returns; when there are none,
     * the first `count` films of the catalogue (`LIMIT` counts films here).
     */
    method GetTopPopFilms(count: int, ranking: seq<int>, mpaById: int -> Mpa, genreById: int -> Genre)
      returns (r: Result<seq<Film>>, ghost ids: seq<int>)
      requires Valid()
      requires IsTopLiked(ranking, likesDao.rows, count)
      ensures NoDuplicates(ids)
      ensures r.Err? ==> r.error == NotFoundError(FilmMpaMissing)
      ensures r.Ok? ==>
        && |r.value| == |ids|
        && forall i :: 0 <= i < |ids| ==>
          ids[i] in films && MakeFilm(ids[i], mpaById, genreById).Ok? && r.value[i] == MakeFilm(ids[i], mpaById, genreById).value
      ensures ranking != [] ==> Elements(ids) == Elements(ranking) && Elements(ids) <= LikedFilms(likesDao.rows)
      ensures ranking != [] ==> |ids| <= count
      ensures ranking == [] ==> Elements(ids) <= films.Keys && |ids| == Min(count, |films|)
    {
      forall i | 0 <= i < |ranking| ensures ranking[i] in films {
        var row :| row in likesDao.rows && row.0 == ranking[i];
      }
      DistinctCardinality(ranking);
      var top := Enumerate(Elements(ranking));
      forall i | 0 <= i < |top| ensures top[i] in films {
        assert top[i] in Elements(top);
      }
      DistinctCardinality(top);
      ids := top;
      r := MakeFilms(top, mpaById, genreById);
      if r.Ok? && |r.value| == 0 {
        var catalogue := Enumerate(films.Keys);
        var limited := catalogue[..Min(count, |catalogue|)];
        forall i | 0 <= i < |limited| ensures limited[i] in films {
          assert limited[i] == catalogue[i];
          assert catalogue[i] in Elements(catalogue);
        }
        ids := limited;
        r := MakeFilms(limited, mpaById, genreById);
      }
    }

    /**
     * Rewrites the film's columns, sets the rating of its `film_mpa` rows to
     * the looked-up one, and replaces its genre rows by the de-duplicated,
     * looked-up genre list. An UPDATE that matches no row is NotFound and
     * changes nothing.
     */
    method UpdateFilm(film: Film, mpaById: int -> Mpa, genreById: int -> Genre) returns (r: Result<Film>)
      requires Valid()
      modifies this
      ensures Valid() && films.Keys == old(films).Keys
      ensures film.id !in old(films) ==>
        r == Err(NotFoundError(FilmDataInvalid)) && films == old(films) && filmMpa == old(filmMpa) && filmGenres == old(filmGenres)
      ensures film.id in old(films) ==>
        var kept := Lookup(Dedup(IdsOf(film.genres)), genreById);
        && r == Ok(film.(mpa := mpaById(film.mpa.id), genres := kept))
        && films == old(films)[film.id := FilmRow(film.name, film.description, film.releaseDate, film.duration, old(films)[film.id].mpaId)]
        && filmMpa == SetValue(old(filmMpa), film.id, mpaById(film.mpa.id).id)
        && filmGenres == DeleteKey(old(filmGenres), film.id) + Pairs(film.id, IdsOf(kept))
    {
      if film.id !in films {
        return Err(NotFoundError(FilmDataInvalid));
      }
      films := films[film.id := FilmRow(film.name, film.description, film.releaseDate, film.duration, films[film.id].mpaId)];
      var mpa := mpaById(film.mpa.id);
      filmMpa := SetValue(filmMpa, film.id, mpa.id);
      var kept := DeduplicateGenres(film.genres, genreById);
      filmGenres := DeleteKey(filmGenres, film.id) + Pairs(film.id, IdsOf(kept));
      r := Ok(film.(mpa := mpa, genres := kept));
    }
  }
}

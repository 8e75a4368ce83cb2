/**
 * The service layer: the null guards, the display-name rule of user
 * creation, the translation of an absent record into NotFound, the lower
 * bound on the size of the popularity list, and delegation to the storage
 * and data-access classes.
 */
module Service {
  import opened Model
  import opened Sequences
  import opened Ranking
  import opened GenreLists
  import opened FilmRows
  import Storage
  import Dao

  /**
   * The record `createUser` stores: a null or blank name is replaced by the
   * login. The stored name is non-blank exactly when the name or the login is.
   */
  function WithDisplayName(user: User): (r: User)
    ensures r == user.(name := r.name)
    ensures r.name == user.name || r.name == user.login
    ensures !MissingOrBlank(user.name) ==> r.name == user.name
    ensures !MissingOrBlank(r.name) <==> !MissingOrBlank(user.name) || !MissingOrBlank(user.login)
  {
    if MissingOrBlank(user.name) then user.(name := user.login) else user
  }

  /** Applying the rule to a record that already went through it changes nothing. */
  lemma DisplayNameIdempotent(user: User)
    ensures WithDisplayName(WithDisplayName(user)) == WithDisplayName(user)
  {
  }

  /**
   * `UserService` over the in-memory user store and the friends table. The
   * two are separate objects, as the source's beans are.
   */
  class UserService {
    const friendsDao: Dao.FriendsDaoImpl
    const userStorage: Storage.InMemoryUserStorage

    constructor (friendsDao: Dao.FriendsDaoImpl, userStorage: Storage.InMemoryUserStorage)
      ensures this.friendsDao == friendsDao && this.userStorage == userStorage
    {
      this.friendsDao := friendsDao;
      this.userStorage := userStorage;
    }

    /** The stored user, or NotFound when the store has none under `id`. */
    function GetUserById(id: int): (r: Result<User>)
      requires userStorage.Valid()
      reads userStorage
      ensures r.Ok? <==> id in userStorage.userMap
      ensures r.Ok? ==> r.value == userStorage.userMap[id] && r.value.id == id
      ensures r.Err? ==> r.error == NotFoundError(UserAbsent)
    {
      Found(userStorage.GetUserById(id), UserAbsent)
    }

    method GetAllUsers() returns (r: seq<User>)
      requires userStorage.Valid()
      ensures |r| == |userStorage.userMap|
      ensures forall i :: 0 <= i < |r| ==> r[i].id in userStorage.userMap && r[i] == userStorage.userMap[r[i].id]
      ensures forall id :: id in userStorage.userMap ==> exists i :: 0 <= i < |r| && r[i].id == id
    {
      r := userStorage.GetAllUsers();
    }

    /**
     * No user is a ValidationError and leaves the store alone; otherwise the
     * record with its display name is stored under the next id.
     */
    method CreateUser(user: Option<User>) returns (r: Result<User>)
      requires userStorage.Valid()
      modifies userStorage
      ensures userStorage.Valid()
      ensures user.None? ==>
        && r == Err(ValidationError(UserDataMissing))
        && userStorage.userMap == old(userStorage.userMap) && userStorage.userId == old(userStorage.userId)
      ensures user.Some? ==>
        && userStorage.userId == old(userStorage.userId) + 1
        && r == Ok(WithDisplayName(user.value).(id := userStorage.userId))
        && userStorage.userMap == old(userStorage.userMap)[userStorage.userId := r.value]
    {
      if user.None? {
        return Err(ValidationError(UserDataMissing));
      }
      var stored := userStorage.CreateUser(WithDisplayName(user.value));
      r := Ok(stored);
    }

    /** An unknown id is NotFound and changes nothing; a known one replaces that record. */
    method UpdateUser(user: User) returns (r: Result<User>)
      requires userStorage.Valid()
      modifies userStorage
      ensures userStorage.Valid() && userStorage.userId == old(userStorage.userId)
      ensures user.id !in old(userStorage.userMap) ==>
        r == Err(NotFoundError(UserAbsent)) && userStorage.userMap == old(userStorage.userMap)
      ensures user.id in old(userStorage.userMap) ==>
        r == Ok(user) && userStorage.userMap == old(userStorage.userMap)[user.id := user]
    {
      var updated := userStorage.UpdateUser(user);
      r := Found(updated, UserAbsent);
    }

    /** Delegates to the friends table: one directed row, or NotFound. */
    method AddToFriends(userId: int, friendId: int) returns (o: Outcome)
      requires friendsDao.Valid()
      modifies friendsDao
      ensures friendsDao.Valid() && friendsDao.users == old(friendsDao.users)
      ensures o.Pass? <==> old(friendsDao.Accepts(userId, friendId))
      ensures o.Pass? ==> friendsDao.rows == old(friendsDao.rows) + [(userId, friendId)]
      ensures o.Fail? ==> o.error == NotFoundError(FriendUserInvalid) && friendsDao.rows == old(friendsDao.rows)
    {
      o := friendsDao.AddToFriends(userId, friendId);
    }

    /** Delegates to the friends table: the row `(userId, friendId)` goes, if present. */
    method DeleteFromFriends(userId: int, friendId: int)
      requires friendsDao.Valid()
      modifies friendsDao
      ensures friendsDao.Valid() && friendsDao.users == old(friendsDao.users)
      ensures friendsDao.rows == Tables.DeleteRow(old(friendsDao.rows), (userId, friendId))
    {
      friendsDao.DeleteFromFriends(userId, friendId);
    }

    /** The users the rows of `userId` point to, one per row. */
    function GetUserFriendList(userId: int): (r: seq<User>)
      requires friendsDao.Valid()
      reads friendsDao
      ensures r == friendsDao.GetUserFriendList(userId)
      ensures forall i :: 0 <= i < |r| ==> (userId, r[i].id) in friendsDao.rows && r[i].id in friendsDao.users
      ensures userId !in friendsDao.users ==> r == []
    {
      friendsDao.GetUserFriendList(userId)
    }

    /** The users both `userId` and `otherUserId` point to, each once. */
    method GetCommonFriends(userId: int, otherUserId: int) returns (r: seq<User>)
      requires friendsDao.Valid()
      ensures |r| == |friendsDao.CommonFriendIds(userId, otherUserId)|
      ensures forall i :: 0 <= i < |r| ==>
        (userId, r[i].id) in friendsDao.rows && (otherUserId, r[i].id) in friendsDao.rows
      ensures forall i, j :: 0 <= i < j < |r| ==> r[i].id != r[j].id
      ensures forall i :: 0 <= i < |r| ==> r[i].id in friendsDao.users && r[i] == friendsDao.MakeUser(r[i].id)
    {
      r := friendsDao.GetCommonFriends(userId, otherUserId);
    }
  }

  /**
   * `FilmService` over the likes table and the film DAO. The film ids the
   * likes table refers to are films of the DAO, and no user id is 0.
   */
  class FilmService {
    const filmLikesDao: Dao.FilmLikesDaoImpl
    const filmStorage: Dao.FilmDbDaoImpl

    constructor (filmLikesDao: Dao.FilmLikesDaoImpl, filmStorage: Dao.FilmDbDaoImpl)
      ensures this.filmLikesDao == filmLikesDao && this.filmStorage == filmStorage
    {
      this.filmLikesDao := filmLikesDao;
      this.filmStorage := filmStorage;
    }

    ghost predicate Valid()
      reads filmLikesDao, filmStorage
    {
      && filmLikesDao.Valid() && filmStorage.Valid()
      && filmLikesDao.films <= filmStorage.films.Keys
      && 0 !in filmLikesDao.users
    }

    lemma ValidLikes()
      requires Valid()
      ensures Dao.LikesWellFormed(filmLikesDao.rows, filmStorage.films)
    {
      forall j | 0 <= j < |filmLikesDao.rows|
        ensures filmLikesDao.rows[j].0 in filmStorage.films && filmLikesDao.rows[j].1 != 0
      {
        assert filmLikesDao.rows[j] in filmLikesDao.rows;
      }
    }

    /** The film of the join `rows`, or NotFound from the DAO for an unknown id. */
    method GetFilmById(id: int, rows: seq<JoinRow>) returns (r: Result<Film>)
      requires Valid()
      requires IsJoin(rows, if id in filmStorage.films then {id} else {}, filmStorage.films, filmStorage.filmGenres, filmLikesDao.rows)
      ensures r.Err? <==> id !in filmStorage.films
      ensures r.Err? ==> r.error == NotFoundError(FilmIdInvalid)
      ensures r.Ok? ==> Describes(r.value, id, filmStorage.films, filmStorage.filmGenres, filmLikesDao.rows)
      ensures r.Ok? ==> NoDuplicates(r.value.genres)
    {
      ValidLikes();
      r := filmStorage.GetFilmById(id, rows, filmLikesDao.rows);
    }

    method GetAllFilms(rows: seq<JoinRow>) returns (r: seq<Film>)
      requires Valid()
      requires IsJoin(rows, filmStorage.films.Keys, filmStorage.films, filmStorage.filmGenres, filmLikesDao.rows)
      ensures |r| == |filmStorage.films|
      ensures forall i :: 0 <= i < |r| ==> Describes(r[i], r[i].id, filmStorage.films, filmStorage.filmGenres, filmLikesDao.rows)
      ensures forall id :: id in filmStorage.films ==> exists i :: 0 <= i < |r| && r[i].id == id
    {
      ValidLikes();
      r := filmStorage.GetAllFilms(rows, filmLikesDao.rows);
    }

    /**
     * No film is a ValidationError and changes nothing; otherwise the film is
     * inserted under the key the database generates.
     */
    method AddFilm(film: Option<Film>, key: int, mpaById: int -> Mpa) returns (r: Result<Film>)
      requires Valid() && key !in filmStorage.films
      requires film.Some? ==> forall i :: 0 <= i < |film.value.genres| ==> film.value.genres[i].id != 0
      modifies filmStorage
      ensures Valid()
      ensures film.None? ==>
        && r == Err(ValidationError(FilmDataMissing))
        && filmStorage.films == old(filmStorage.films) && filmStorage.filmGenres == old(filmStorage.filmGenres)
      ensures film.Some? ==>
        && r == Ok(film.value.(id := key, mpa := mpaById(film.value.mpa.id)))
        && filmStorage.films == old(filmStorage.films)[key := FilmRow(film.value.name, film.value.description,
             film.value.releaseDate, film.value.duration, r.value.mpa.id)]
        && filmStorage.filmGenres == old(filmStorage.filmGenres) + Tables.Pairs(key, IdsOf(film.value.genres))
        && Tables.Select(filmStorage.filmGenres, key) == IdsOf(film.value.genres)
        && forall k :: k != key ==> Tables.Select(filmStorage.filmGenres, k) == Tables.Select(old(filmStorage.filmGenres), k)
    {
      if film.None? {
        return Err(ValidationError(FilmDataMissing));
      }
      var added := filmStorage.AddFilm(film.value, key, mpaById);
      forall k | k != key
        ensures Tables.Select(filmStorage.filmGenres, k) == Tables.Select(old(filmStorage.filmGenres), k)
      {
        Tables.SelectAppendPairs(old(filmStorage.filmGenres), key, IdsOf(film.value.genres), k);
      }
      r := Ok(added);
    }

    /** An unknown id is NotFound from the DAO; otherwise the DAO's update. */
    method UpdateFilm(film: Film, mpaById: int -> Mpa, genreById: int -> Genre) returns (r: Result<Film>)
      requires Valid()
      requires forall id :: genreById(id).id != 0
      modifies filmStorage
      ensures Valid()
      ensures film.id !in old(filmStorage.films) ==>
        && r == Err(NotFoundError(FilmDataInvalid))
        && filmStorage.films == old(filmStorage.films) && filmStorage.filmGenres == old(filmStorage.filmGenres)
      ensures film.id in old(filmStorage.films) ==>
        var kept := Lookup(Dedup(IdsOf(film.genres)), genreById);
        && r == Ok(film.(mpa := mpaById(film.mpa.id), genres := kept))
        && filmStorage.films == old(filmStorage.films)[film.id := FilmRow(film.name, film.description,
             film.releaseDate, film.duration, mpaById(film.mpa.id).id)]
        && filmStorage.filmGenres == Tables.DeleteKey(old(filmStorage.filmGenres), film.id) + Tables.Pairs(film.id, IdsOf(kept))
        && Tables.Select(filmStorage.filmGenres, film.id) == IdsOf(kept)
        && forall k :: k != film.id ==> Tables.Select(filmStorage.filmGenres, k) == Tables.Select(old(filmStorage.filmGenres), k)
    {
      r := filmStorage.UpdateFilm(film, mpaById, genreById);
      if film.id in old(filmStorage.films) {
        var kept := IdsOf(Lookup(Dedup(IdsOf(film.genres)), genreById));
        forall k ensures Tables.Select(filmStorage.filmGenres, k) == if k == film.id then kept else Tables.Select(old(filmStorage.filmGenres), k) {
          Tables.SelectAfterReplaceKey(old(filmStorage.filmGenres), film.id, kept, k);
        }
      }
    }

    /** Delegates `(filmId, userId)` to the likes table. */
    method LikeFilm(filmId: int, userId: int) returns (o: Outcome)
      requires Valid()
      modifies filmLikesDao
      ensures Valid()
      ensures o.Pass? <==> old(filmLikesDao.Accepts(filmId, userId))
      ensures o.Pass? ==> filmLikesDao.rows == old(filmLikesDao.rows) + [(filmId, userId)]
      ensures o.Fail? ==> o.error == NotFoundError(FilmOrUserInvalid) && filmLikesDao.rows == old(filmLikesDao.rows)
    {
      o := filmLikesDao.LikeFilm(filmId, userId);
    }

    /** Delegates `(filmId, userId)` to the likes table. */
    method RevokeLikeToFilm(filmId: int, userId: int)
      requires Valid()
      modifies filmLikesDao
      ensures Valid()
      ensures filmLikesDao.rows == Tables.DeleteRow(old(filmLikesDao.rows), (filmId, userId))
    {
      filmLikesDao.RevokeLikeToFilm(filmId, userId);
    }

    /**
     * A count below 1 is a ValidationError and the DAO is not consulted;
     * otherwise the DAO's popularity list for that same count.
     */
    method GetTopPopFilms(count: int, ranking: seq<int>, likedRows: seq<JoinRow>, catalogueRows: seq<JoinRow>)
      returns (r: Result<seq<Film>>)
      requires Valid()
      requires count >= 1 ==>
        && IsTopLiked(ranking, filmLikesDao.rows, count)
        && IsJoin(likedRows, Elements(ranking), filmStorage.films, filmStorage.filmGenres, filmLikesDao.rows)
        && IsJoin(catalogueRows, filmStorage.films.Keys, filmStorage.films, filmStorage.filmGenres, filmLikesDao.rows)
      ensures r.Err? <==> count < 1
      ensures r.Err? ==> r.error == ValidationError(CountTooSmall)
      ensures r.Ok? ==> |r.value| <= count
      ensures r.Ok? && ranking != [] ==> |r.value| == |ranking|
      ensures r.Ok? && ranking != [] ==> forall i :: 0 <= i < |r.value| ==>
        && r.value[i].id in ranking && r.value[i].id in LikedFilms(filmLikesDao.rows)
        && Describes(r.value[i], r.value[i].id, filmStorage.films, filmStorage.filmGenres, filmLikesDao.rows)
      ensures r.Ok? && ranking != [] ==> forall id :: id in ranking ==> exists i :: 0 <= i < |r.value| && r.value[i].id == id
      ensures r.Ok? && ranking == [] ==> forall i :: 0 <= i < |r.value| ==> r.value[i].id in filmStorage.films
      ensures r.Ok? && ranking == [] && |filmStorage.films| > 0 ==> |r.value| > 0
      ensures r.Ok? ==> forall i, j :: 0 <= i < j < |r.value| ==> r.value[i].id != r.value[j].id
    {
      if count < 1 {
        return Err(ValidationError(CountTooSmall));
      }
      ValidLikes();
      var films := filmStorage.GetTopPopFilms(count, filmLikesDao.rows, ranking, likedRows, catalogueRows);
      r := Ok(films);
    }
  }
}

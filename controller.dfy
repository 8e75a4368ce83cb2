/**
 * The HTTP controllers: the request-body validators, the id check, the
 * default size of the popularity list, and the handlers that validate
 * before delegating to the services.
 */
module Controller {
  import opened Model
  import opened Sequences
  import opened Ranking
  import opened FilmRows
  import Service
  import Tables

  /** The earliest release date a film may have: 28 December 1895. */
  const FirstFilmDate := Date(1895, 12, 28)
  /** The largest description, in bytes. */
  const MaxDescriptionBytes := 200
  /** The size of the popularity list when the request names none. */
  const DefaultCount := 10

  /** A named check of a validator: whether it holds, and the reason it reports when not. */
  datatype Check = Check(holds: bool, reason: Reason)

  /** The reason of the first check that does not hold, if any. */
  function FirstFailure(checks: seq<Check>): (r: Option<Reason>)
    ensures r.None? <==> forall k :: 0 <= k < |checks| ==> checks[k].holds
    ensures r.Some? ==> exists k ::
      && 0 <= k < |checks| && !checks[k].holds && checks[k].reason == r.value
      && forall j :: 0 <= j < k ==> checks[j].holds
  {
    if checks == [] then None
    else if !checks[0].holds then Some(checks[0].reason)
    else
      var r := FirstFailure(checks[1..]);
      if r.Some? then
        var k :|
          && 0 <= k < |checks| - 1 && !checks[1..][k].holds && checks[1..][k].reason == r.value
          && forall j :: 0 <= j < k ==> checks[1..][j].holds;
        assert !checks[k + 1].holds && checks[k + 1].reason == r.value;
        r
      else r
  }

  /** An email that is present, not blank and contains `@`. */
  predicate EmailAccepted(email: Option<string>) {
    email.Some? && !IsBlank(email.value) && '@' in email.value
  }

  /** The checks of `validateUser`, in the order they run. */
  function UserChecks(user: User, today: Date): seq<Check> {
    [ Check(EmailAccepted(user.email), EmailInvalid),
      Check(!MissingOrBlank(user.login), LoginInvalid),
      Check(!IsAfter(user.birthday, today), BirthdayInvalid) ]
  }

  /** The checks of `validateFilm`, in the order they run. */
  function FilmChecks(film: Film): seq<Check> {
    [ Check(!MissingOrBlank(film.name), FilmNameMissing),
      Check(|film.description| <= MaxDescriptionBytes, DescriptionTooLong),
      Check(!IsBefore(film.releaseDate, FirstFilmDate), ReleaseDateInvalid),
      Check(film.duration >= 0, DurationInvalid) ]
  }

  /**
   * `validateUser`: no user, then the email, the login and the birthday in
   * turn; the first check that fails decides the ValidationError.
   */
  function ValidateUser(user: Option<User>, today: Date): (o: Outcome)
    ensures user.None? ==> o == Fail(ValidationError(UserDataMissing))
    ensures o.Pass? <==>
      && user.Some? && EmailAccepted(user.value.email) && !MissingOrBlank(user.value.login)
      && !IsAfter(user.value.birthday, today)
  {
    if user.None? then Fail(ValidationError(UserDataMissing))
    else if !EmailAccepted(user.value.email) then Fail(ValidationError(EmailInvalid))
    else if MissingOrBlank(user.value.login) then Fail(ValidationError(LoginInvalid))
    else if IsAfter(user.value.birthday, today) then Fail(ValidationError(BirthdayInvalid))
    else Pass
  }

  /**
   * `validateFilm`: no film, then the name, the description size, the
   * release date and the duration in turn; the first failure decides.
   */
  function ValidateFilm(film: Option<Film>): (o: Outcome)
    ensures film.None? ==> o == Fail(ValidationError(FilmDataMissing))
    ensures o.Pass? <==>
      && film.Some? && !MissingOrBlank(film.value.name)
      && |film.value.description| <= MaxDescriptionBytes
      && !IsBefore(film.value.releaseDate, FirstFilmDate) && film.value.duration >= 0
  {
    if film.None? then Fail(ValidationError(FilmDataMissing))
    else if MissingOrBlank(film.value.name) then Fail(ValidationError(FilmNameMissing))
    else if |film.value.description| > MaxDescriptionBytes then Fail(ValidationError(DescriptionTooLong))
    else if IsBefore(film.value.releaseDate, FirstFilmDate) then Fail(ValidationError(ReleaseDateInvalid))
    else if film.value.duration < 0 then Fail(ValidationError(DurationInvalid))
    else Pass
  }

  /** `validateId`: a negative id is NotFound; 0 and positive ids pass. */
  function ValidateId(id: int): (o: Outcome)
    ensures o.Pass? <==> id >= 0
    ensures o.Fail? ==> o.error == NotFoundError(IdInvalid)
  {
    if id < 0 then Fail(NotFoundError(IdInvalid)) else Pass
  }

  /** The outcome a list of checks gives: a ValidationError for the first one that fails. */
  function Verdict(checks: seq<Check>): Outcome {
    match FirstFailure(checks)
    case None => Pass
    case Some(reason) => Fail(ValidationError(reason))
  }

  /** The checks of `validateUser` run in order and the first failing one decides the error. */
  lemma {:induction false} UserChecksInOrder(user: User, today: Date)
    ensures ValidateUser(Some(user), today) == Verdict(UserChecks(user, today))
  {
    var c := UserChecks(user, today);
    assert c[1..][1..] == [c[2]] && [c[2]][1..] == [];
    assert FirstFailure([c[2]]) == if c[2].holds then None else Some(c[2].reason);
    assert FirstFailure(c[1..]) == if !c[1].holds then Some(c[1].reason) else FirstFailure([c[2]]);
  }

  /** The checks of `validateFilm` run in order and the first failing one decides the error. */
  lemma {:induction false} FilmChecksInOrder(film: Film)
    ensures ValidateFilm(Some(film)) == Verdict(FilmChecks(film))
  {
    var c := FilmChecks(film);
    assert c[1..][1..] == [c[2], c[3]] && [c[2], c[3]][1..] == [c[3]] && [c[3]][1..] == [];
    assert FirstFailure([c[3]]) == if c[3].holds then None else Some(c[3].reason);
    assert FirstFailure([c[2], c[3]]) == if !c[2].holds then Some(c[2].reason) else FirstFailure([c[3]]);
    assert FirstFailure(c[1..]) == if !c[1].holds then Some(c[1].reason) else FirstFailure([c[2], c[3]]);
  }

  /** The list size a popularity request asks for: the given count, or 10. */
  function RequestedCount(count: Option<int>): (c: int)
    ensures count.Some? ==> c == count.value
    ensures count.None? ==> c == DefaultCount
  {
    if count.Some? then count.value else DefaultCount
  }

  /** A film that passes every check but the description one, by its description size. */
  lemma DescriptionBoundary(film: Film)
    requires !MissingOrBlank(film.name) && !IsBefore(film.releaseDate, FirstFilmDate) && film.duration >= 0
    ensures |film.description| == 200 ==> ValidateFilm(Some(film)) == Pass
    ensures |film.description| == 201 ==> ValidateFilm(Some(film)) == Fail(ValidationError(DescriptionTooLong))
  {
  }

  /** 28 December 1895 is accepted as a release date, 27 December 1895 is not. */
  lemma ReleaseDateBoundary(film: Film)
    requires !MissingOrBlank(film.name) && |film.description| <= 200 && film.duration >= 0
    ensures ValidateFilm(Some(film.(releaseDate := Date(1895, 12, 28)))) == Pass
    ensures ValidateFilm(Some(film.(releaseDate := Date(1895, 12, 27)))) == Fail(ValidationError(ReleaseDateInvalid))
  {
  }

  /** A duration of 0 is accepted, -1 is not. */
  lemma DurationBoundary(film: Film)
    requires !MissingOrBlank(film.name) && |film.description| <= 200 && !IsBefore(film.releaseDate, FirstFilmDate)
    ensures ValidateFilm(Some(film.(duration := 0))) == Pass
    ensures ValidateFilm(Some(film.(duration := -1))) == Fail(ValidationError(DurationInvalid))
  {
  }

  /** A birthday of today is accepted, the next day is not. */
  lemma BirthdayBoundary(user: User, today: Date)
    requires EmailAccepted(user.email) && !MissingOrBlank(user.login)
    requires today.day < 28
    ensures ValidateUser(Some(user.(birthday := today)), today) == Pass
    ensures ValidateUser(Some(user.(birthday := today.(day := today.day + 1))), today) == Fail(ValidationError(BirthdayInvalid))
  {
  }

  /** An email without `@` is rejected before the login is looked at. */
  lemma EmailCheckedFirst(user: User, today: Date)
    requires user.email.Some? && '@' !in user.email.value
    ensures ValidateUser(Some(user), today) == Fail(ValidationError(EmailInvalid))
  {
  }

  /** Every user the validator lets through is stored with a name that is not blank. */
  lemma ValidatedUserHasName(user: Option<User>, today: Date)
    requires ValidateUser(user, today).Pass?
    ensures !MissingOrBlank(Service.WithDisplayName(user.value).name)
  {
  }

  /** `UserController`: create and update validate the body before they reach the service. */
  class UserController {
    const userService: Service.UserService

    constructor (userService: Service.UserService)
      ensures this.userService == userService
    {
      this.userService := userService;
    }

    method CreateUser(user: Option<User>, today: Date) returns (r: Result<User>)
      requires userService.userStorage.Valid()
      modifies userService.userStorage
      ensures userService.userStorage.Valid()
      ensures ValidateUser(user, today).Fail? ==>
        && r == Err(ValidateUser(user, today).error)
        && userService.userStorage.userMap == old(userService.userStorage.userMap)
        && userService.userStorage.userId == old(userService.userStorage.userId)
      ensures ValidateUser(user, today).Pass? ==>
        && userService.userStorage.userId == old(userService.userStorage.userId) + 1
        && r == Ok(Service.WithDisplayName(user.value).(id := userService.userStorage.userId))
        && userService.userStorage.userMap == old(userService.userStorage.userMap)[userService.userStorage.userId := r.value]
        && !MissingOrBlank(r.value.name)
    {
      var o := ValidateUser(user, today);
      if o.Fail? {
        return Err(o.error);
      }
      r := userService.CreateUser(user);
    }

    method UpdateUser(user: Option<User>, today: Date) returns (r: Result<User>)
      requires userService.userStorage.Valid()
      modifies userService.userStorage
      ensures userService.userStorage.Valid() && userService.userStorage.userId == old(userService.userStorage.userId)
      ensures ValidateUser(user, today).Fail? ==>
        r == Err(ValidateUser(user, today).error) && userService.userStorage.userMap == old(userService.userStorage.userMap)
      ensures ValidateUser(user, today).Pass? && user.value.id !in old(userService.userStorage.userMap) ==>
        r == Err(NotFoundError(UserAbsent)) && userService.userStorage.userMap == old(userService.userStorage.userMap)
      ensures ValidateUser(user, today).Pass? && user.value.id in old(userService.userStorage.userMap) ==>
        r == Ok(user.value) && userService.userStorage.userMap == old(userService.userStorage.userMap)[user.value.id := user.value]
    {
      var o := ValidateUser(user, today);
      if o.Fail? {
        return Err(o.error);
      }
      r := userService.UpdateUser(user.value);
    }
  }

  /** `FilmController`: bodies and path ids are validated before they reach the service. */
  class FilmController {
    const filmService: Service.FilmService

    constructor (filmService: Service.FilmService)
      ensures this.filmService == filmService
    {
      this.filmService := filmService;
    }

    method AddFilm(film: Option<Film>, key: int, mpaById: int -> Mpa) returns (r: Result<Film>)
      requires filmService.Valid() && key !in filmService.filmStorage.films
      requires film.Some? ==> forall i :: 0 <= i < |film.value.genres| ==> film.value.genres[i].id != 0
      modifies filmService.filmStorage
      ensures filmService.Valid()
      ensures ValidateFilm(film).Fail? ==>
        && r == Err(ValidateFilm(film).error)
        && filmService.filmStorage.films == old(filmService.filmStorage.films)
        && filmService.filmStorage.filmGenres == old(filmService.filmStorage.filmGenres)
      ensures ValidateFilm(film).Pass? ==>
        && r == Ok(film.value.(id := key, mpa := mpaById(film.value.mpa.id)))
        && filmService.filmStorage.films == old(filmService.filmStorage.films)[key := FilmRow(film.value.name,
             film.value.description, film.value.releaseDate, film.value.duration, r.value.mpa.id)]
        && filmService.filmStorage.filmGenres == old(filmService.filmStorage.filmGenres)
             + Tables.Pairs(key, GenreLists.IdsOf(film.value.genres))
        && Tables.Select(filmService.filmStorage.filmGenres, key) == GenreLists.IdsOf(film.value.genres)
        && forall k :: k != key ==>
             Tables.Select(filmService.filmStorage.filmGenres, k) == Tables.Select(old(filmService.filmStorage.filmGenres), k)
    {
      var o := ValidateFilm(film);
      if o.Fail? {
        return Err(o.error);
      }
      r := filmService.AddFilm(film, key, mpaById);
    }

    method UpdateFilm(film: Option<Film>, mpaById: int -> Mpa, genreById: int -> Genre) returns (r: Result<Film>)
      requires filmService.Valid()
      requires forall id :: genreById(id).id != 0
      modifies filmService.filmStorage
      ensures filmService.Valid()
      ensures ValidateFilm(film).Fail? ==>
        && r == Err(ValidateFilm(film).error)
        && filmService.filmStorage.films == old(filmService.filmStorage.films)
        && filmService.filmStorage.filmGenres == old(filmService.filmStorage.filmGenres)
      ensures ValidateFilm(film).Pass? && film.value.id !in old(filmService.filmStorage.films) ==>
        && r == Err(NotFoundError(FilmDataInvalid))
        && filmService.filmStorage.films == old(filmService.filmStorage.films)
        && filmService.filmStorage.filmGenres == old(filmService.filmStorage.filmGenres)
      ensures ValidateFilm(film).Pass? && film.value.id in old(filmService.filmStorage.films) ==>
        var f := film.value;
        var kept := GenreLists.Lookup(Dedup(GenreLists.IdsOf(f.genres)), genreById);
        && r == Ok(f.(mpa := mpaById(f.mpa.id), genres := kept))
        && filmService.filmStorage.films == old(filmService.filmStorage.films)[f.id := FilmRow(f.name, f.description,
             f.releaseDate, f.duration, mpaById(f.mpa.id).id)]
        && filmService.filmStorage.filmGenres == Tables.DeleteKey(old(filmService.filmStorage.filmGenres), f.id)
             + Tables.Pairs(f.id, GenreLists.IdsOf(kept))
        && Tables.Select(filmService.filmStorage.filmGenres, f.id) == GenreLists.IdsOf(kept)
        && forall k :: k != f.id ==>
             Tables.Select(filmService.filmStorage.filmGenres, k) == Tables.Select(old(filmService.filmStorage.filmGenres), k)
    {
      var o := ValidateFilm(film);
      if o.Fail? {
        return Err(o.error);
      }
      r := filmService.UpdateFilm(film.value, mpaById, genreById);
    }

    method GetFilmById(id: int, rows: seq<JoinRow>) returns (r: Result<Film>)
      requires filmService.Valid()
      requires id >= 0 ==> IsJoin(rows, if id in filmService.filmStorage.films then {id} else {},
        filmService.filmStorage.films, filmService.filmStorage.filmGenres, filmService.filmLikesDao.rows)
      ensures id < 0 ==> r == Err(NotFoundError(IdInvalid))
      ensures id >= 0 ==> (r.Err? <==> id !in filmService.filmStorage.films)
      ensures id >= 0 && r.Err? ==> r.error == NotFoundError(FilmIdInvalid)
      ensures r.Ok? ==> Describes(r.value, id, filmService.filmStorage.films, filmService.filmStorage.filmGenres,
        filmService.filmLikesDao.rows)
    {
      var o := ValidateId(id);
      if o.Fail? {
        return Err(o.error);
      }
      r := filmService.GetFilmById(id, rows);
    }

    /** Both ids are checked, the film's first, before the like reaches the service. */
    method LikeFilm(id: int, userId: int) returns (o: Outcome)
      requires filmService.Valid()
      modifies filmService.filmLikesDao
      ensures filmService.Valid()
      ensures id < 0 || userId < 0 ==>
        o == Fail(NotFoundError(IdInvalid)) && filmService.filmLikesDao.rows == old(filmService.filmLikesDao.rows)
      ensures id >= 0 && userId >= 0 ==> (o.Pass? <==> old(filmService.filmLikesDao.Accepts(id, userId)))
      ensures id >= 0 && userId >= 0 && o.Fail? ==>
        o.error == NotFoundError(FilmOrUserInvalid) && filmService.filmLikesDao.rows == old(filmService.filmLikesDao.rows)
      ensures o.Pass? ==> filmService.filmLikesDao.rows == old(filmService.filmLikesDao.rows) + [(id, userId)]
    {
      o := ValidateId(id);
      if o.Fail? {
        return;
      }
      o := ValidateId(userId);
      if o.Fail? {
        return;
      }
      o := filmService.LikeFilm(id, userId);
    }

    method RevokeLikeToFilm(id: int, userId: int) returns (o: Outcome)
      requires filmService.Valid()
      modifies filmService.filmLikesDao
      ensures filmService.Valid()
      ensures id < 0 || userId < 0 ==>
        o == Fail(NotFoundError(IdInvalid)) && filmService.filmLikesDao.rows == old(filmService.filmLikesDao.rows)
      ensures id >= 0 && userId >= 0 ==>
        o == Pass && filmService.filmLikesDao.rows == Tables.DeleteRow(old(filmService.filmLikesDao.rows), (id, userId))
    {
      o := ValidateId(id);
      if o.Fail? {
        return;
      }
      o := ValidateId(userId);
      if o.Fail? {
        return;
      }
      filmService.RevokeLikeToFilm(id, userId);
    }

    /** The popularity list for the requested count, 10 when none is given. */
    method GetTopPopFilms(count: Option<int>, ranking: seq<int>, likedRows: seq<JoinRow>, catalogueRows: seq<JoinRow>)
      returns (r: Result<seq<Film>>)
      requires filmService.Valid()
      requires RequestedCount(count) >= 1 ==>
        && IsTopLiked(ranking, filmService.filmLikesDao.rows, RequestedCount(count))
        && IsJoin(likedRows, Elements(ranking), filmService.filmStorage.films, filmService.filmStorage.filmGenres,
             filmService.filmLikesDao.rows)
        && IsJoin(catalogueRows, filmService.filmStorage.films.Keys, filmService.filmStorage.films,
             filmService.filmStorage.filmGenres, filmService.filmLikesDao.rows)
      ensures r.Err? <==> count.Some? && count.value < 1
      ensures r.Err? ==> r.error == ValidationError(CountTooSmall)
      ensures r.Ok? ==> |r.value| <= RequestedCount(count)
      ensures r.Ok? && ranking != [] ==> |r.value| == |ranking|
      ensures r.Ok? && ranking != [] ==> forall i :: 0 <= i < |r.value| ==>
        && r.value[i].id in ranking && r.value[i].id in LikedFilms(filmService.filmLikesDao.rows)
        && Describes(r.value[i], r.value[i].id, filmService.filmStorage.films, filmService.filmStorage.filmGenres,
             filmService.filmLikesDao.rows)
      ensures r.Ok? && ranking != [] ==> forall id :: id in ranking ==> exists i :: 0 <= i < |r.value| && r.value[i].id == id
      ensures r.Ok? && ranking == [] ==> forall i :: 0 <= i < |r.value| ==> r.value[i].id in filmService.filmStorage.films
      ensures r.Ok? && ranking == [] && |filmService.filmStorage.films| > 0 ==> |r.value| > 0
      ensures r.Ok? ==> forall i, j :: 0 <= i < j < |r.value| ==> r.value[i].id != r.value[j].id
    {
      r := filmService.GetTopPopFilms(RequestedCount(count), ranking, likedRows, catalogueRows);
    }
  }
}

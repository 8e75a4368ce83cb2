/**
 * The records of the film catalogue (users, films, genres, MPA ratings),
 * calendar dates, the error taxonomy, and the string predicates the
 * validators use.
 */
module Model {

  datatype Option<+T> = None | Some(value: T)

  /** A byte of a film description, as `String.getBytes()` yields it. */
  type Byte = b: int | 0 <= b < 256

  /** A calendar date; dates compare lexicographically on (year, month, day). */
  datatype Date = Date(year: int, month: int, day: int)

  predicate IsBefore(a: Date, b: Date) {
    a.year < b.year
    || (a.year == b.year && a.month < b.month)
    || (a.year == b.year && a.month == b.month && a.day < b.day)
  }

  predicate IsAfter(a: Date, b: Date) {
    IsBefore(b, a)
  }

  /** Reference data attached to a film; a name may be SQL NULL. */
  datatype Genre = Genre(id: int, name: Option<string>)
  datatype Mpa = Mpa(id: int, name: Option<string>)

  /**
   * A user. The strings may be null in a request body. `friends` is the set
   * of friend ids the record carries.
   */
  datatype User = User(
    id: int,
    email: Option<string>,
    login: Option<string>,
    name: Option<string>,
    birthday: Date,
    friends: set<int>)

  /** A film with its rating, genre list and the set of ids of users who liked it. */
  datatype Film = Film(
    id: int,
    name: Option<string>,
    description: seq<Byte>,
    releaseDate: Date,
    duration: int,
    mpa: Mpa,
    genres: seq<Genre>,
    likes: set<int>)

  /** A row of the `films` table; `mpaId` is 0 where the rating column is NULL. */
  datatype FilmRow = FilmRow(
    name: Option<string>,
    description: seq<Byte>,
    releaseDate: Date,
    duration: int,
    mpaId: int)

  /** One reason per distinct exception message of the core. */
  datatype Reason =
    | UserDataMissing
    | EmailInvalid
    | LoginInvalid
    | BirthdayInvalid
    | FilmDataMissing
    | FilmNameMissing
    | DescriptionTooLong
    | ReleaseDateInvalid
    | DurationInvalid
    | IdInvalid
    | CountTooSmall
    | NotAFriend
    | UserAbsent
    | FriendUserInvalid
    | FriendSetUserInvalid
    | FilmOrUserInvalid
    | FilmIdInvalid
    | FilmMpaMissing
    | FilmDataInvalid

  /** `ValidationException` and `NotFoundException`. */
  datatype Error = ValidationError(reason: Reason) | NotFoundError(reason: Reason)

  datatype Result<+T> = Ok(value: T) | Err(error: Error)

  /** The outcome of an operation that returns nothing or throws. */
  datatype Outcome = Pass | Fail(error: Error)

  /** Turns a storage lookup that may yield null into a result. */
  function Found<T>(stored: Option<T>, reason: Reason): (r: Result<T>)
    ensures r.Err? <==> stored.None?
    ensures r.Err? ==> r.error == NotFoundError(reason)
    ensures r.Ok? ==> r.value == stored.value
  {
    match stored
    case None => Err(NotFoundError(reason))
    case Some(v) => Ok(v)
  }

  function Min(a: int, b: int): int {
    if a <= b then a else b
  }

  /** `Character.isWhitespace`: the space separators other than the no-break spaces, line and paragraph separators, and the listed controls. */
  predicate IsWhitespace(c: char) {
    c == ' ' || ('\t' <= c <= '\r') || ('\U{1C}' <= c <= '\U{1F}')
    || c == '\U{1680}' || ('\U{2000}' <= c <= '\U{2006}') || ('\U{2008}' <= c <= '\U{200A}')
    || c == '\U{2028}' || c == '\U{2029}' || c == '\U{205F}' || c == '\U{3000}'
  }

  /** `String.isBlank`: empty, or whitespace only. */
  predicate IsBlank(s: string) {
    forall i :: 0 <= i < |s| ==> IsWhitespace(s[i])
  }

  /** A nullable string that is null or blank. */
  predicate MissingOrBlank(s: Option<string>) {
    s.None? || IsBlank(s.value)
  }
}

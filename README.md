# Filmorate catalogue core in Dafny

This project models the core of *filmorate*, a film-catalogue web service. It keeps users and films. Users befriend each other, like films and ask for the most popular films. The model covers these parts:

- **Data and errors** (`model.dfy`): the records of users, films, genres and ratings; calendar dates; and `String.isBlank`. Failures are a `Result` or `Outcome` carrying `ValidationError` or `NotFoundError`, with one reason per distinct message.
- **Controllers** (`controller.dfy`): the validators of request bodies and ids, the default list size, and the handlers that validate before they delegate.
- **Services** (`service.dfy`): the null guards, the display-name rule of user creation, the NotFound translation, the `count < 1` check and delegation.
- **In-memory stores and JDBC film store** (`storage.dfy`):
  - `InMemoryUserStorage` and `InMemoryFilmStorage` are classes, each with an id counter and a map of records.
  - `FilmDbStorage` assembles a film from one query per table.
- **JDBC DAOs** (`dao.dfy`):
  - `FriendsDaoImpl` keeps friendship as a directed edge table.
  - `FilmLikesDaoImpl` keeps the like table.
  - `FilmDbDaoImpl` reads films through one big left join and updates them.
- **Tables** (`tables.dfy`): a two-column SQL table is the sequence of its rows. INSERT appends, `DELETE ... WHERE` removes the matching rows, `UPDATE ... SET` rewrites them and `SELECT` filters.
- **Join-row grouping** (`film_rows.dfy`): the `makeFilm` result-set loop folds join rows into films. A 0 genre or user id stands for a NULL column of the left join. `IsJoin` ties a join result to the tables, and `Describes` says a film shows exactly its table rows.
- **Ranking** (`ranking.dfy`): the like-count subquery, abstracted as "at most `count` liked films and never a less-liked one ahead of a more-liked one". Ties are arbitrary.
- **Genre lists** (`genre_lists.dfy`): the first-occurrence de-duplication of genre lists in `updateFilm`.
- **Sequence helpers** (`sequences.dfy`): `Dedup` and `NoDuplicates`, plus the enumeration of a set or map in an unspecified order, as `HashSet` iteration and `HashMap.values()` give it.

Classes follow the source's beans. State kept in fields becomes class fields that the methods change under `modifies`. Loops become `for` or `while` loops carrying invariants. SQL result sets that the model does not compute become method inputs, constrained by `IsJoin` or `IsTopLiked`. The service and controller classes are wired as follows:

- The user service runs over `InMemoryUserStorage`, the model's implementation of the user store interface.
- The film service runs over `FilmDbDaoImpl`, the implementation of the interface `FilmDbDao` that the source declares for it.
- The user store and the friends table are separate objects, as the beans are.

## Model

| member | source | states |
|---|---|---|
| Model.Found | src/main/java/ru/yandex/practicum/filmorate/service/UserService.java:22-30 | a lookup yielding null becomes NotFound with the given reason; otherwise the stored record is returned |
| Sequences.Dedup | src/main/java/ru/yandex/practicum/filmorate/dao/impl/FilmDbDaoImpl.java:172-179 | the de-duplicated list has no repeats, keeps every element of the input and adds none |
| Sequences.DedupKeepsFirstOccurrenceOrder | src/main/java/ru/yandex/practicum/filmorate/dao/impl/FilmDbDaoImpl.java:174-179 | kept elements appear in the order of their first occurrence in the input |
| Sequences.DedupOfDistinct | src/main/java/ru/yandex/practicum/filmorate/dao/impl/FilmDbDaoImpl.java:172-180 | a list without repeats is left as it is |
| Sequences.DedupIdempotent | src/main/java/ru/yandex/practicum/filmorate/dao/impl/FilmDbDaoImpl.java:172-180 | de-duplicating twice is de-duplicating once |
| Sequences.DistinctCardinality | src/main/java/ru/yandex/practicum/filmorate/storage/user/InMemoryUserStorage.java:63-71 | a repeat-free list is as long as its set of elements |
| Sequences.Enumerate | src/main/java/ru/yandex/practicum/filmorate/storage/user/InMemoryUserStorage.java:66-69 | iterating a set yields every element exactly once |
| Sequences.MapValues | src/main/java/ru/yandex/practicum/filmorate/storage/user/InMemoryUserStorage.java:23-26 | `new ArrayList<>(map.values())` yields one value per key, each under a distinct key |
| Tables.Select | src/main/java/ru/yandex/practicum/filmorate/dao/impl/FriendsDaoImpl.java:43-49 | a filter yields only values of rows with the key and the value of every such row |
| Tables.DeleteRow | src/main/java/ru/yandex/practicum/filmorate/dao/impl/FriendsDaoImpl.java:67-71 | the DELETE removes every copy of the pair and keeps every other row with its multiplicity |
| Tables.DeleteKey | src/main/java/ru/yandex/practicum/filmorate/dao/impl/FilmGenreDaoImpl.java:37-41 | deleting by key keeps exactly the rows of other keys |
| Tables.SetValue | src/main/java/ru/yandex/practicum/filmorate/storage/film/FilmDbStorage.java:126 | the UPDATE rewrites the value of every row of the key and leaves the other rows and the row count alone |
| Tables.Pairs | src/main/java/ru/yandex/practicum/filmorate/dao/impl/FilmGenreDaoImpl.java:27-34 | a loop of INSERTs writes one row per value, in order |
| Tables.SelectAppend | src/main/java/ru/yandex/practicum/filmorate/dao/impl/FilmLikesDaoImpl.java:39-43 | an INSERT adds its value to the rows of its key only |
| Tables.DeleteAbsentRow | src/main/java/ru/yandex/practicum/filmorate/dao/impl/FriendsDaoImpl.java:67-71 | deleting a pair that is not there changes nothing |
| Tables.InsertThenDeleteRestores | src/main/java/ru/yandex/practicum/filmorate/dao/impl/FilmLikesDaoImpl.java:39-59 | inserting a new pair and deleting it restores the table |
| Tables.SelectAfterDeleteRow | src/main/java/ru/yandex/practicum/filmorate/dao/impl/FilmLikesDaoImpl.java:51-59 | deleting a pair leaves the selection of every other key as it was |
| Tables.SelectAfterDeleteRowSameKey | src/main/java/ru/yandex/practicum/filmorate/dao/impl/FriendsDaoImpl.java:67-71 | deleting a pair removes that value, every copy, from its key's selection and nothing else |
| Tables.SelectAfterDeleteKey | src/main/java/ru/yandex/practicum/filmorate/dao/impl/FilmGenreDaoImpl.java:37-41 | after deleting by key the key selects nothing and other keys are unaffected |
| Tables.SelectAppendPairs | src/main/java/ru/yandex/practicum/filmorate/dao/impl/FilmGenreDaoImpl.java:27-34 | inserting the pairs of a key makes that key select its old values followed by the inserted ones |
| Tables.SelectAbsentKey | src/main/java/ru/yandex/practicum/filmorate/dao/impl/FriendsDaoImpl.java:73-79 | a key no row carries selects nothing |
| Tables.SelectAfterReplaceKey | src/main/java/ru/yandex/practicum/filmorate/dao/impl/FilmDbDaoImpl.java:181-182 | delete-then-insert makes the key select exactly the inserted values, other keys unchanged |
| Tables.Repeat | src/main/java/ru/yandex/practicum/filmorate/storage/film/FilmDbStorage.java:126 | a list of n copies of a value |
| Tables.SelectAfterSetValue | src/main/java/ru/yandex/practicum/filmorate/storage/film/FilmDbStorage.java:126 | after the UPDATE the key selects the new value once per row it had; other keys are unchanged |
| Ranking.MorePopularIsRanked | src/main/java/ru/yandex/practicum/filmorate/dao/impl/FilmDbDaoImpl.java:80-81 | a liked film with more likes than a ranked film is ranked too |
| Ranking.AllLikedFilmsRanked | src/main/java/ru/yandex/practicum/filmorate/dao/impl/FilmDbDaoImpl.java:80-81 | when the limit is at least the number of liked films, every liked film is ranked |
| Ranking.RankingSize | src/main/java/ru/yandex/practicum/filmorate/storage/film/FilmDbStorage.java:58-60 | the ranking names at most `count` films, and fewer only when every liked film is named |
| GenreLists.IdsOf | src/main/java/ru/yandex/practicum/filmorate/dao/impl/FilmDbDaoImpl.java:174-178 | the ids of a genre list, position by position |
| GenreLists.Lookup | src/main/java/ru/yandex/practicum/filmorate/dao/impl/FilmDbDaoImpl.java:176 | each id is resolved through the genre table, position by position |
| GenreLists.DeduplicateGenres | src/main/java/ru/yandex/practicum/filmorate/dao/impl/FilmDbDaoImpl.java:172-180 | the `genresList`/`idList` loop yields the looked-up genres of the de-duplicated id list |
| GenreLists.DeduplicatedGenres | src/main/java/ru/yandex/practicum/filmorate/storage/film/FilmDbStorage.java:127-135 | the kept genres have no repeated id, cover every input id, add none, and keep first-occurrence order |
| FilmRows.FilmIdsOfSize | src/main/java/ru/yandex/practicum/filmorate/dao/impl/FilmDbDaoImpl.java:79-88 | a set of rows names no more films than it has rows |
| FilmRows.PrefixFilmIds | src/main/java/ru/yandex/practicum/filmorate/dao/impl/FilmDbDaoImpl.java:78-88 | the first `n` join rows name only films of the whole result, at most `n` of them, and at least one when `n > 0` |
| FilmRows.FirstRowOf | src/main/java/ru/yandex/practicum/filmorate/dao/impl/FilmDbDaoImpl.java:107-117 | the row that first creates a film is the first row carrying its id |
| FilmRows.AssembledAsWritten | src/main/java/ru/yandex/practicum/filmorate/dao/impl/FilmDbDaoImpl.java:103-128 | the film the loop as written builds for an id carries that id |
| FilmRows.Assembled | src/main/java/ru/yandex/practicum/filmorate/dao/impl/FilmDbDaoImpl.java:103-128 | the corrected film for an id carries that id |
| FilmRows.GenresOfMembership | src/main/java/ru/yandex/practicum/filmorate/dao/impl/FilmDbDaoImpl.java:118-121 | a genre is listed exactly when some row of the film carries it with a non-zero id |
| FilmRows.AbsentFilm | src/main/java/ru/yandex/practicum/filmorate/dao/impl/FilmDbDaoImpl.java:118-125 | an id with no row collects no genres and no likes |
| FilmRows.GroupKeys | src/main/java/ru/yandex/practicum/filmorate/dao/impl/FilmDbDaoImpl.java:105-117 | the map has one entry per distinct film id of the rows |
| FilmRows.GroupAsWrittenAssembles | src/main/java/ru/yandex/practicum/filmorate/dao/impl/FilmDbDaoImpl.java:103-128 | each entry is the film whose columns come from its first row, genres and likes from all rows |
| FilmRows.GroupAssembles | src/main/java/ru/yandex/practicum/filmorate/dao/impl/FilmDbDaoImpl.java:103-128 | the same for the corrected assembly |
| FilmRows.MakeFilmAsWritten | src/main/java/ru/yandex/practicum/filmorate/dao/impl/FilmDbDaoImpl.java:103-128 | the loop as written: one film per distinct id, null exactly for no rows, otherwise the last row's film |
| FilmRows.MakeFilm | src/main/java/ru/yandex/practicum/filmorate/dao/impl/FilmDbDaoImpl.java:103-128 | the corrected loop: the same, with each genre listed once |
| FilmRows.AssembliesAgreeWithoutRepeats | src/main/java/ru/yandex/practicum/filmorate/dao/impl/FilmDbDaoImpl.java:118-121 | with no repeated genre row the two assemblies coincide |
| FilmRows.GenreRepeatedPerLike | src/main/java/ru/yandex/practicum/filmorate/dao/impl/FilmDbDaoImpl.java:118-121 | a film with one genre and two likes lists the genre twice as written, once corrected |
| FilmRows.AssembledDescribes | src/main/java/ru/yandex/practicum/filmorate/dao/impl/FilmDbDaoImpl.java:38-47 | an assembled film shows its table columns, its rating id, exactly its genre rows and exactly its like rows, with no repeated genre |
| FilmRows.AllAssembledDescribe | src/main/java/ru/yandex/practicum/filmorate/dao/impl/FilmDbDaoImpl.java:96-101 | every film of an extracted list describes its rows |
| Dao.FriendsDaoImpl.AddToFriends | src/main/java/ru/yandex/practicum/filmorate/dao/impl/FriendsDaoImpl.java:55-65 | exactly one directed row is inserted when both users exist, so the friend's list is unchanged; otherwise NotFound and no row |
| Dao.FriendsDaoImpl.AddFriendSetToUser | src/main/java/ru/yandex/practicum/filmorate/dao/impl/FriendsDaoImpl.java:29-41 | one row per element of the set; on NotFound the rows already inserted stay |
| Dao.FriendsDaoImpl.DeleteFromFriends | src/main/java/ru/yandex/practicum/filmorate/dao/impl/FriendsDaoImpl.java:67-71 | every row of the pair goes and no other; an absent pair is a silent no-op |
| Dao.FriendsDaoImpl.GetUserFriendIdSet | src/main/java/ru/yandex/practicum/filmorate/dao/impl/FriendsDaoImpl.java:43-49 | exactly the friend ids of the user's rows |
| Dao.FriendsDaoImpl.MakeUser | src/main/java/ru/yandex/practicum/filmorate/dao/impl/FriendsDaoImpl.java:92-104 | the stored user with its friend set read from the rows |
| Dao.FriendsDaoImpl.GetUserFriendList | src/main/java/ru/yandex/practicum/filmorate/dao/impl/FriendsDaoImpl.java:73-79 | one user per row of the user: the users' ids are, as a multiset, the user's friend ids, in no promised order; empty for an unknown user |
| Dao.FriendsDaoImpl.CommonFriendIds | src/main/java/ru/yandex/practicum/filmorate/dao/impl/FriendsDaoImpl.java:81-90 | an id is common exactly when both users have a row to it |
| Dao.FriendsDaoImpl.GetCommonFriends | src/main/java/ru/yandex/practicum/filmorate/dao/impl/FriendsDaoImpl.java:81-90 | the INTERSECT: one user per common id, no repeats |
| Dao.FilmLikesDaoImpl.GetFilmLikes | src/main/java/ru/yandex/practicum/filmorate/dao/impl/FilmLikesDaoImpl.java:26-32 | exactly the user ids of the film's like rows |
| Dao.FilmLikesDaoImpl.LikeFilm | src/main/java/ru/yandex/practicum/filmorate/dao/impl/FilmLikesDaoImpl.java:38-48 | one row is inserted when the film and user exist; otherwise NotFound and no row |
| Dao.FilmLikesDaoImpl.RevokeLikeToFilm | src/main/java/ru/yandex/practicum/filmorate/dao/impl/FilmLikesDaoImpl.java:50-59 | every row of the pair goes; a missing pair is no error |
| Dao.LikeThenRevokeRestoresLikes | src/main/java/ru/yandex/practicum/filmorate/dao/impl/FilmLikesDaoImpl.java:38-59 | like then revoke on a new pair restores the film's likes |
| Dao.FilmDbDaoImpl.ExtractAllFilms | src/main/java/ru/yandex/practicum/filmorate/dao/impl/FilmDbDaoImpl.java:96-101 | one film per distinct film id of the rows, each the assembly of its rows |
| Dao.FilmDbDaoImpl.GetFilmById | src/main/java/ru/yandex/practicum/filmorate/dao/impl/FilmDbDaoImpl.java:49-63 | NotFound exactly for an unknown id; otherwise the film describing its tables |
| Dao.FilmDbDaoImpl.GetAllFilms | src/main/java/ru/yandex/practicum/filmorate/dao/impl/FilmDbDaoImpl.java:65-76 | as many films as the table has, each once, each describing its rows |
| Dao.FilmDbDaoImpl.GetTopPopFilms | src/main/java/ru/yandex/practicum/filmorate/dao/impl/FilmDbDaoImpl.java:78-88 | the ranked films if there are any; otherwise the films of the first `count` join rows, at most `count` and at least one when the catalogue is not empty |
| Dao.NewKeyRows | src/main/java/ru/yandex/practicum/filmorate/dao/impl/FilmDbDaoImpl.java:144-148 | a key the films table does not hold selects exactly the genre ids inserted under it |
| Dao.FilmDbDaoImpl.AddFilm | src/main/java/ru/yandex/practicum/filmorate/dao/impl/FilmDbDaoImpl.java:130-152 | the film under the generated key with the looked-up rating; its genre rows are the given list, repeats included |
| Dao.FilmDbDaoImpl.UpdateFilm | src/main/java/ru/yandex/practicum/filmorate/dao/impl/FilmDbDaoImpl.java:154-186 | an unknown id is NotFound before anything changes; otherwise new columns and rating, and genre rows replaced by the de-duplicated list |
| Storage.Befriend | src/main/java/ru/yandex/practicum/filmorate/storage/user/InMemoryUserStorage.java:46-51 | the new friend map: same users, only the friend sets change, and `f` is a friend of `u` exactly when it was, or `u` and `f` are the two users |
| Storage.Unfriend | src/main/java/ru/yandex/practicum/filmorate/storage/user/InMemoryUserStorage.java:53-61 | the new friend map: same users, only the friend sets change, and `f` is a friend of `u` exactly when it was and `u` and `f` are not the two users |
| Storage.BefriendInPlace | src/main/java/ru/yandex/practicum/filmorate/storage/user/InMemoryUserStorage.java:49-50 | `Befriend` is the two set additions done one after the other, with an updated record read back for the second |
| Storage.UnfriendInPlace | src/main/java/ru/yandex/practicum/filmorate/storage/user/InMemoryUserStorage.java:59-60 | `Unfriend` is the two set removals done one after the other |
| Storage.BefriendKeepsSymmetry | src/main/java/ru/yandex/practicum/filmorate/storage/user/InMemoryUserStorage.java:46-51 | a symmetric friend relation stays symmetric after `Befriend` |
| Storage.UnfriendKeepsSymmetry | src/main/java/ru/yandex/practicum/filmorate/storage/user/InMemoryUserStorage.java:53-61 | a symmetric friend relation stays symmetric after `Unfriend` |
| Storage.BefriendFriends | src/main/java/ru/yandex/practicum/filmorate/storage/user/InMemoryUserStorage.java:49-50 | befriending users who are already friends both ways changes nothing |
| Storage.BefriendCommutes | src/main/java/ru/yandex/practicum/filmorate/storage/user/InMemoryUserStorage.java:46-51 | befriending `a` with `b` is the same as befriending `b` with `a` |
| Storage.UnfriendUndoesBefriend | src/main/java/ru/yandex/practicum/filmorate/storage/user/InMemoryUserStorage.java:46-61 | unfriending undoes befriending two users who were not friends either way |
| Storage.InMemoryUserStorage.GetUserById | src/main/java/ru/yandex/practicum/filmorate/storage/user/InMemoryUserStorage.java:18-21 | the stored record, or none; never an id the counter has not reached |
| Storage.InMemoryUserStorage.GetAllUsers | src/main/java/ru/yandex/practicum/filmorate/storage/user/InMemoryUserStorage.java:23-26 | exactly the stored users, one per id |
| Storage.InMemoryUserStorage.CreateUser | src/main/java/ru/yandex/practicum/filmorate/storage/user/InMemoryUserStorage.java:28-34 | the counter goes up by one, the user gets it as id and is stored under it; the id is above every earlier one |
| Storage.InMemoryUserStorage.UpdateUser | src/main/java/ru/yandex/practicum/filmorate/storage/user/InMemoryUserStorage.java:36-44 | an unknown id yields none and changes nothing; a known one replaces that entry only |
| Storage.InMemoryUserStorage.AddToFriends | src/main/java/ru/yandex/practicum/filmorate/storage/user/InMemoryUserStorage.java:46-51 | each user gains the other as friend, nobody else changes, symmetry is kept and a repeat changes nothing |
| Storage.InMemoryUserStorage.DeleteFromFriends | src/main/java/ru/yandex/practicum/filmorate/storage/user/InMemoryUserStorage.java:53-61 | not a friend is a ValidationError with no change; otherwise both directions go and symmetry is kept |
| Storage.InMemoryUserStorage.GetUserFriendList | src/main/java/ru/yandex/practicum/filmorate/storage/user/InMemoryUserStorage.java:63-71 | one lookup per friend id, as many as the user has friends |
| Storage.InMemoryUserStorage.CommonFriendIds | src/main/java/ru/yandex/practicum/filmorate/storage/user/InMemoryUserStorage.java:73-85 | the ids in both friend sets, symmetric in the two users |
| Storage.InMemoryUserStorage.GetCommonFriends | src/main/java/ru/yandex/practicum/filmorate/storage/user/InMemoryUserStorage.java:73-85 | one lookup per common friend id, each once |
| Storage.InMemoryFilmStorage.GetFilmById | src/main/java/ru/yandex/practicum/filmorate/storage/film/InMemoryFilmStorage.java:16-19 | the stored film, or none; none for an id never handed out |
| Storage.InMemoryFilmStorage.GetAllFilms | src/main/java/ru/yandex/practicum/filmorate/storage/film/InMemoryFilmStorage.java:21-24 | exactly the stored films, one per id |
| Storage.InMemoryFilmStorage.AddFilm | src/main/java/ru/yandex/practicum/filmorate/storage/film/InMemoryFilmStorage.java:26-32 | the counter goes up by one and the film is stored under it; ids strictly increase |
| Storage.InMemoryFilmStorage.UpdateFilm | src/main/java/ru/yandex/practicum/filmorate/storage/film/InMemoryFilmStorage.java:34-42 | an unknown id yields none and changes nothing; a known one replaces that entry only |
| Storage.FilmDbStorage.MakeFilm | src/main/java/ru/yandex/practicum/filmorate/storage/film/FilmDbStorage.java:69-83 | a film's likes are exactly the like rows, its genres the looked-up genre rows, its rating that of its first rating row |
| Storage.FilmDbStorage.GetFilmById | src/main/java/ru/yandex/practicum/filmorate/storage/film/FilmDbStorage.java:36-47 | an unknown id is NotFound; otherwise the row-mapped film with that id |
| Storage.FilmDbStorage.MakeFilms | src/main/java/ru/yandex/practicum/filmorate/storage/film/FilmDbStorage.java:53 | row-maps each listed film in order; the first failure ends it |
| Storage.FilmDbStorage.GetAllFilms | src/main/java/ru/yandex/practicum/filmorate/storage/film/FilmDbStorage.java:49-54 | every film once |
| Storage.FilmDbStorage.GetTopPopFilms | src/main/java/ru/yandex/practicum/filmorate/storage/film/FilmDbStorage.java:56-67 | the ranked films, only liked ones and at most `count`; else `min(count, films)` catalogue films |
| Storage.FilmDbStorage.UpdateFilm | src/main/java/ru/yandex/practicum/filmorate/storage/film/FilmDbStorage.java:109-141 | an unknown id is NotFound with no change; otherwise columns, rating rows and genre rows are rewritten |
| Service.WithDisplayName | src/main/java/ru/yandex/practicum/filmorate/service/UserService.java:43-46 | a null or blank name becomes the login, a non-blank one is kept; the result has a non-blank name exactly when the name or the login is non-blank |
| Service.DisplayNameIdempotent | src/main/java/ru/yandex/practicum/filmorate/service/UserService.java:43-46 | applying the name rule twice is applying it once |
| Service.UserService.GetUserById | src/main/java/ru/yandex/practicum/filmorate/service/UserService.java:22-30 | NotFound exactly when the store has no such user |
| Service.UserService.GetAllUsers | src/main/java/ru/yandex/practicum/filmorate/service/UserService.java:32-35 | the store's users |
| Service.UserService.CreateUser | src/main/java/ru/yandex/practicum/filmorate/service/UserService.java:37-50 | null is a ValidationError and the store is untouched; otherwise the display-named user is stored under the next id |
| Service.UserService.UpdateUser | src/main/java/ru/yandex/practicum/filmorate/service/UserService.java:52-62 | an unknown user is NotFound and nothing changes; otherwise that entry is replaced |
| Service.UserService.AddToFriends | src/main/java/ru/yandex/practicum/filmorate/service/UserService.java:64-67 | passes both ids in order to the friends table |
| Service.UserService.DeleteFromFriends | src/main/java/ru/yandex/practicum/filmorate/service/UserService.java:69-72 | passes both ids in order to the friends table |
| Service.UserService.GetUserFriendList | src/main/java/ru/yandex/practicum/filmorate/service/UserService.java:74-77 | the friends table's list for the same user |
| Service.UserService.GetCommonFriends | src/main/java/ru/yandex/practicum/filmorate/service/UserService.java:79-82 | the friends table's common friends of the same pair: one stored user record per common id, read back with its friend set, none repeated |
| Service.FilmService.ValidLikes | src/main/java/ru/yandex/practicum/filmorate/dao/impl/FilmLikesDaoImpl.java:39-47 | like rows name existing films and non-null users |
| Service.FilmService.GetFilmById | src/main/java/ru/yandex/practicum/filmorate/service/FilmService.java:23-32 | NotFound exactly for an unknown film, otherwise the film describing its rows |
| Service.FilmService.GetAllFilms | src/main/java/ru/yandex/practicum/filmorate/service/FilmService.java:34-37 | every film once, each describing its rows |
| Service.FilmService.AddFilm | src/main/java/ru/yandex/practicum/filmorate/service/FilmService.java:39-48 | null is a ValidationError and nothing changes; otherwise the film with the generated id and the looked-up rating, its column row under that key, its genre rows appended, the key selecting exactly its genre ids and every other key's genres unchanged |
| Service.FilmService.UpdateFilm | src/main/java/ru/yandex/practicum/filmorate/service/FilmService.java:50-60 | unknown film NotFound with nothing changed; otherwise the film's new column row with the looked-up rating, its genre rows replaced by the de-duplicated list, and every other film's genres unchanged |
| Service.FilmService.LikeFilm | src/main/java/ru/yandex/practicum/filmorate/service/FilmService.java:62-65 | passes `(filmId, userId)` unchanged to the likes table |
| Service.FilmService.RevokeLikeToFilm | src/main/java/ru/yandex/practicum/filmorate/service/FilmService.java:67-70 | passes `(filmId, userId)` unchanged to the likes table |
| Service.FilmService.GetTopPopFilms | src/main/java/ru/yandex/practicum/filmorate/service/FilmService.java:72-80 | a count below 1 is a ValidationError exactly, with no DAO call; otherwise at most `count` distinct films: with a ranking, exactly the ranked films, each describing its rows; without one, catalogue films, at least one when there are films |
| Controller.FirstFailure | src/main/java/ru/yandex/practicum/filmorate/controller/UserController.java:64-86 | no reason exactly when every check holds; otherwise the reason of a failing check that all earlier checks pass |
| Controller.ValidateUser | src/main/java/ru/yandex/practicum/filmorate/controller/UserController.java:64-86 | null is rejected; a user passes exactly when the email has `@` and is not blank, the login is not blank and the birthday is not after today |
| Controller.ValidateFilm | src/main/java/ru/yandex/practicum/filmorate/controller/FilmController.java:65-92 | null is rejected; a film passes exactly when it has a name, at most 200 description bytes, a release no earlier than 1895-12-28 and a non-negative duration |
| Controller.ValidateId | src/main/java/ru/yandex/practicum/filmorate/controller/FilmController.java:94-100 | NotFound exactly for a negative id |
| Controller.UserChecksInOrder | src/main/java/ru/yandex/practicum/filmorate/controller/UserController.java:71-85 | the user checks run in order and the first failing one decides the error |
| Controller.FilmChecksInOrder | src/main/java/ru/yandex/practicum/filmorate/controller/FilmController.java:72-91 | the film checks run in order and the first failing one decides the error |
| Controller.RequestedCount | src/main/java/ru/yandex/practicum/filmorate/controller/FilmController.java:60-63 | the given count, or 10 when none is given |
| Controller.DescriptionBoundary | src/main/java/ru/yandex/practicum/filmorate/controller/FilmController.java:77-81 | 200 bytes pass, 201 bytes fail |
| Controller.ReleaseDateBoundary | src/main/java/ru/yandex/practicum/filmorate/controller/FilmController.java:82-86 | 1895-12-28 passes, 1895-12-27 fails |
| Controller.DurationBoundary | src/main/java/ru/yandex/practicum/filmorate/controller/FilmController.java:87-91 | duration 0 passes, -1 fails |
| Controller.BirthdayBoundary | src/main/java/ru/yandex/practicum/filmorate/controller/UserController.java:81-85 | a birthday of today passes, tomorrow fails |
| Controller.EmailCheckedFirst | src/main/java/ru/yandex/practicum/filmorate/controller/UserController.java:71-80 | an email without `@` is reported before any login problem |
| Controller.ValidatedUserHasName | src/main/java/ru/yandex/practicum/filmorate/controller/UserController.java:26-30 | a user that passes validation is stored with a non-blank name |
| Controller.UserController.CreateUser | src/main/java/ru/yandex/practicum/filmorate/controller/UserController.java:26-30 | a failed validation leaves the store untouched and reports its error; otherwise the user is created with a non-blank name |
| Controller.UserController.UpdateUser | src/main/java/ru/yandex/practicum/filmorate/controller/UserController.java:32-36 | a failed validation reports its error with no change; otherwise the service's update |
| Controller.FilmController.AddFilm | src/main/java/ru/yandex/practicum/filmorate/controller/FilmController.java:28-32 | a failed validation reports its error with no change; otherwise the film under the new key with its column row, its genre rows appended and every other key's genres unchanged |
| Controller.FilmController.UpdateFilm | src/main/java/ru/yandex/practicum/filmorate/controller/FilmController.java:34-38 | a failed validation reports its error with no change; an unknown film is NotFound with no change; otherwise the film's new column row, its genre rows replaced by the de-duplicated list and every other film's genres unchanged |
| Controller.FilmController.GetFilmById | src/main/java/ru/yandex/practicum/filmorate/controller/FilmController.java:40-44 | a negative id is NotFound before storage is asked |
| Controller.FilmController.LikeFilm | src/main/java/ru/yandex/practicum/filmorate/controller/FilmController.java:46-51 | a negative film or user id is NotFound with no row inserted; otherwise the likes table's insert, or NotFound(FilmOrUserInvalid) with the rows unchanged when the film or the user does not exist |
| Controller.FilmController.RevokeLikeToFilm | src/main/java/ru/yandex/practicum/filmorate/controller/FilmController.java:53-58 | a negative id is NotFound with no change; otherwise the pair's rows are deleted |
| Controller.FilmController.GetTopPopFilms | src/main/java/ru/yandex/practicum/filmorate/controller/FilmController.java:60-63 | uses 10 when no count is given; a given count below 1 is a ValidationError; otherwise the service's list: exactly the ranked films, each describing its rows, or catalogue films when nothing is liked |

## Left out

- SQL text and JdbcTemplate, KeyHolder and ResultSet mechanics are not modelled. Tables are row sequences.
- Join and ranking results are inputs constrained by `IsJoin` and `IsTopLiked`. They are not computed from the tables.
- The database schema is not part of this model. Foreign keys are stated as sets or maps of existing ids. No primary key is assumed on `friends` or `film_likes`, so a repeated INSERT adds a second row.
- Result orders the code does not fix are left unspecified. This covers `HashMap.values()`, `HashSet` iteration, SQL without ORDER BY, and the order of ties in the ranking.
- Reference data (`GenresDaoImpl`, `MpaDaoImpl`, the genre and rating services) are the total functions `genreById` and `mpaById`. Their NotFound errors for unknown ids are not modelled. Of `FilmMpaDaoImpl`, only the `mpaDao.getMpaById` call (FilmMpaDaoImpl.java:64) is `mpaById`. Its `film_mpa` rows, the NotFound of `getFilmMpa` for a film without a rating row and the UPDATE of `updateMpaToFilm` are modelled in `Storage.FilmDbStorage`. The "unknown rating" NotFound of `updateMpaToFilm` is not modelled.
- Dao.FilmDbDaoImpl.UpdateFilm assumes every looked-up genre has a non-zero id. The partial updates left behind when a lookup throws halfway are not modelled.
- Service.FilmService.UpdateFilm and Controller.FilmController.UpdateFilm carry the same non-zero genre id assumption.
- Dao.FilmDbDaoImpl.AddFilm requires every genre of the film to have a non-zero id, although `addGenresToFilm` inserts any id as given. In the join, a genre id of 0 is how a missing `film_genre` row reads back, so the model keeps 0 out of the genre table.
- Service.FilmService.AddFilm carries the same non-zero genre id requirement.
- Controller.FilmController.AddFilm carries it too: `validateFilm` does not check genre ids, yet the model admits only non-zero ones.
- Dao.FilmDbDaoImpl.ExtractAllFilms runs the corrected assembly `FilmRows.MakeFilm`, which lists each genre once. As written, `extractAllFilms` lists a genre once per joined like row (see Findings).
- Dao.FilmDbDaoImpl.GetFilmById runs the corrected assembly as well. Its promise of no repeated genre holds of the corrected loop, not of the code as written.
- Service.FilmService.GetFilmById passes on that promise from the DAO, so it too describes the corrected loop.
- Dao.FilmDbDaoImpl.AddFilm takes the generated key as a parameter that is not yet in the table. Database key generation is not modelled.
- Ranking.IsTopLiked requires a non-negative count. The SQL error of a negative `LIMIT` is not modelled, because the callers that can reach it have already rejected such counts.
- Dao.FilmLikesDaoImpl.RevokeLikeToFilm does not model the exception handler around the DELETE. A DELETE matching no rows raises nothing, so the handler is unreachable here.
- Dao.FilmLikesDaoImpl: the film ids its foreign key accepts are fixed when it is built. A film added later through `AddFilm` therefore cannot be liked in the model.
- Dao.FriendsDaoImpl: the user ids its foreign key accepts are fixed when it is built, and nothing ties them to the user store of `UserService`. In the program the friends table and the users table share one database. In the model, a user created later through `Service.UserService.CreateUser` cannot be befriended: `Service.UserService.AddToFriends` reports NotFound for it.
- `FilmDbStorage.addFilm` (FilmDbStorage.java:85-107) is not modelled. The service layer runs over `FilmDbDaoImpl`.
- Storage.FilmDbStorage.UpdateFilm states the new table contents. Reading the genres and the rating back after the update is stated by `Tables.SelectAfterReplaceKey` and `Tables.SelectAfterSetValue`, not in its own contract.
- Storage.InMemoryUserStorage.CreateUser does not model the wrap-around of the 32-bit `int` counter. Neither does Storage.InMemoryFilmStorage.AddFilm. Both counters are unbounded.
- Storage.InMemoryUserStorage.AddToFriends requires both users to exist. Both records are looked up first (InMemoryUserStorage.java:47-48). An unknown `userId` throws a NullPointerException at line 49, before any change. An unknown `friendId` throws at line 50, after it was already added to the user's friends. Neither path is modelled. The other NullPointerException paths of the core are preconditions as well:
  - a null description in `validateFilm`;
  - a null birthday in `validateUser`;
  - a null release date in `validateFilm` (FilmController.java:82), excluded by the field type `Date`;
  - a null duration unboxed in `validateFilm` (FilmController.java:87), excluded by the field type `int`;
  - a null rating dereferenced in `FilmDbDaoImpl.addFilm` and `updateFilm` (FilmDbDaoImpl.java:146 and 170), excluded by the field type `Mpa`;
  - an unknown user id in Storage.InMemoryUserStorage.DeleteFromFriends, whose `userMap.get` yields null, or a listed friend that has no record;
  - an unknown user id in Storage.InMemoryUserStorage.GetUserFriendList;
  - an unknown user id in Storage.InMemoryUserStorage.GetCommonFriends, for either user.
- `UserDbStorage` is not part of this model. The user service is wired to `InMemoryUserStorage`, which makes the same decision: an absent record is NotFound.
- Service.FilmService.GetFilmById does not model the null check of FilmService.java:25-29. The DAO itself already turns a missing film into NotFound, so the check never fires.
- Service.FilmService.UpdateFilm does not model the null check of FilmService.java:52-56, for the same reason.
- `LocalDate.now()` is the parameter `today`. The platform charset of `getBytes()` is not modelled; descriptions are given as bytes.
- Logging, Spring wiring, HTTP routing and the request handlers that only delegate are not modelled. These handlers are `getAllUsers`, `getUserById`, the friend endpoints and `getAllFilms` of the controllers.
- Concurrency between requests is not modelled.
- Exception message texts are not modelled. Each distinct message is a `Reason` constructor.

## Findings

| source | as written | input that shows it | evidently intended | confidence | as-written member | corrected member |
|---|---|---|---|---|---|---|
| src/main/java/ru/yandex/practicum/filmorate/dao/impl/FilmDbDaoImpl.java:118-121 | `makeFilm` appends the genre of every join row to the film's genre list. Each `film_genre` row is joined with every `film_likes` row of the film, so each genre is listed once per like. | film 1 with genre 1 and likes from users 1 and 2: the join gives two rows and the genre list is `[g, g]` | each genre of the film listed once, as `updateFilm` stores it | not executed | FilmRows.GenreRepeatedPerLike | FilmRows.MakeFilm |

The as-written loop is `FilmRows.MakeFilmAsWritten`, whose films are `FilmRows.AssembledAsWritten`. The corrected loop `FilmRows.MakeFilm` lists each genre once, and its films are `FilmRows.Assembled`. The DAO's reading methods use the corrected loop, and `FilmRows.AssembledDescribes` proves that their films show exactly the film's genre rows, with no repeats.

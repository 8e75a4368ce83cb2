/**
 * Grouping of the rows of the film join (`films` left-joined with `mpa`,
 * `film_genre`, `genres` and `film_likes`) into films, as the `makeFilm`
 * result-set loop does. A 0 in the genre id or the user id of a row stands
 * for a NULL column of the left join.
 */
module FilmRows {
  import opened Model
  import opened Sequences
  import opened Tables
  import opened GenreLists

  /** One row of the join. */
  datatype JoinRow = JoinRow(
    filmId: int,
    name: Option<string>,
    description: seq<Byte>,
    releaseDate: Date,
    duration: int,
    mpa: Mpa,
    genre: Genre,
    userId: int)

  /** The distinct film ids of the rows. */
  function FilmIdsOf(rows: seq<JoinRow>): set<int> {
    set i | 0 <= i < |rows| :: rows[i].filmId
  }

  /** There are no more films than rows. */
  lemma {:induction false} FilmIdsOfSize(rows: seq<JoinRow>)
    ensures |FilmIdsOf(rows)| <= |rows|
  {
    if rows != [] {
      var p, r := rows[..|rows| - 1], rows[|rows| - 1];
      assert rows == p + [r];
      FilmIdsOfAppend(p, r);
      FilmIdsOfSize(p);
    }
  }

  /** The first `n` rows of a result set show at most `n` of its films, and at least one when `n > 0`. */
  lemma PrefixFilmIds(rows: seq<JoinRow>, n: nat)
    requires n <= |rows|
    ensures FilmIdsOf(rows[..n]) <= FilmIdsOf(rows)
    ensures |FilmIdsOf(rows[..n])| <= n
    ensures n > 0 ==> |FilmIdsOf(rows[..n])| > 0
  {
    var p := rows[..n];
    FilmIdsOfSize(p);
    forall id | id in FilmIdsOf(p) ensures id in FilmIdsOf(rows) {
      var i :| 0 <= i < |p| && p[i].filmId == id;
      assert rows[i] == p[i];
    }
    if n > 0 {
      assert p[0].filmId in FilmIdsOf(p);
    }
  }

  /** The index of the first row of film `id`. */
  function FirstRowOf(rows: seq<JoinRow>, id: int): (k: nat)
    requires id in FilmIdsOf(rows)
    ensures k < |rows| && rows[k].filmId == id
    ensures forall j :: 0 <= j < k ==> rows[j].filmId != id
  {
    var p := rows[..|rows| - 1];
    if id in FilmIdsOf(p) then
      var k := FirstRowOf(p, id);
      assert rows[k] == p[k];
      k
    else
      assert forall j :: 0 <= j < |p| ==> p[j].filmId in FilmIdsOf(p);
      |rows| - 1
  }

  /** The genres of the rows of film `id` whose genre column is not NULL, in row order. */
  function GenresOf(rows: seq<JoinRow>, id: int): seq<Genre> {
    if rows == [] then []
    else
      var r := rows[|rows| - 1];
      var g := GenresOf(rows[..|rows| - 1], id);
      if r.filmId == id && r.genre.id != 0 then g + [r.genre] else g
  }

  /** The users of the rows of film `id` whose user column is not NULL. */
  function LikesOf(rows: seq<JoinRow>, id: int): set<int> {
    set i | 0 <= i < |rows| && rows[i].filmId == id && rows[i].userId != 0 :: rows[i].userId
  }

  /** The film a row starts: its scalar columns and rating, no genres and no likes yet. */
  function Header(r: JoinRow): Film {
    Film(r.filmId, r.name, r.description, r.releaseDate, r.duration, r.mpa, [], {})
  }

  /**
   * The film the loop builds for `id` as written: the first row's header,
   * one genre per joined row that carries one, and the set of liking users.
   */
  function AssembledAsWritten(rows: seq<JoinRow>, id: int): (f: Film)
    requires id in FilmIdsOf(rows)
    ensures f.id == id
  {
    Header(rows[FirstRowOf(rows, id)]).(genres := GenresOf(rows, id), likes := LikesOf(rows, id))
  }

  /** The film as intended: the same, with every genre listed once, at its first occurrence. */
  function Assembled(rows: seq<JoinRow>, id: int): (f: Film)
    requires id in FilmIdsOf(rows)
    ensures f.id == id
  {
    Header(rows[FirstRowOf(rows, id)]).(genres := Dedup(GenresOf(rows, id)), likes := LikesOf(rows, id))
  }

  lemma FilmIdsOfAppend(p: seq<JoinRow>, r: JoinRow)
    ensures FilmIdsOf(p + [r]) == FilmIdsOf(p) + {r.filmId}
  {
    var s := p + [r];
    assert forall i :: 0 <= i < |p| ==> s[i] == p[i];
    assert s[|p|] == r;
  }

  lemma LikesOfAppend(p: seq<JoinRow>, r: JoinRow, id: int)
    ensures LikesOf(p + [r], id) ==
      if r.filmId == id && r.userId != 0 then LikesOf(p, id) + {r.userId} else LikesOf(p, id)
  {
    var s := p + [r];
    assert forall i :: 0 <= i < |p| ==> s[i] == p[i];
    assert s[|p|] == r;
  }

  lemma GenresOfAppend(p: seq<JoinRow>, r: JoinRow, id: int)
    ensures GenresOf(p + [r], id) ==
      if r.filmId == id && r.genre.id != 0 then GenresOf(p, id) + [r.genre] else GenresOf(p, id)
  {
    assert (p + [r])[..|p|] == p;
  }

  lemma FirstRowOfAppend(p: seq<JoinRow>, r: JoinRow, id: int)
    requires id in FilmIdsOf(p)
    ensures id in FilmIdsOf(p + [r])
    ensures FirstRowOf(p + [r], id) == FirstRowOf(p, id)
  {
    FilmIdsOfAppend(p, r);
    assert (p + [r])[..|p|] == p;
  }

  lemma FirstRowOfNew(p: seq<JoinRow>, r: JoinRow)
    requires r.filmId !in FilmIdsOf(p)
    ensures r.filmId in FilmIdsOf(p + [r])
    ensures FirstRowOf(p + [r], r.filmId) == |p|
  {
    FilmIdsOfAppend(p, r);
    assert (p + [r])[..|p|] == p;
  }

  /** A genre is listed for a film exactly when some row of that film carries it. */
  lemma {:induction false} GenresOfMembership(rows: seq<JoinRow>, id: int, g: Genre)
    ensures g in GenresOf(rows, id) <==>
      exists i :: 0 <= i < |rows| && rows[i].filmId == id && rows[i].genre == g && g.id != 0
  {
    if rows != [] {
      var p, r := rows[..|rows| - 1], rows[|rows| - 1];
      assert rows == p + [r];
      GenresOfMembership(p, id, g);
      if g in GenresOf(p, id) {
        var i :| 0 <= i < |p| && p[i].filmId == id && p[i].genre == g && g.id != 0;
        assert rows[i] == p[i];
      }
      if exists i :: 0 <= i < |rows| && rows[i].filmId == id && rows[i].genre == g && g.id != 0 {
        var i :| 0 <= i < |rows| && rows[i].filmId == id && rows[i].genre == g && g.id != 0;
        if i < |p| {
          assert p[i] == rows[i];
        }
      }
    }
  }

  /** The film a row updates, or the one it starts when its id is new. */
  function Pick(films: map<int, Film>, r: JoinRow): Film {
    if r.filmId in films then films[r.filmId] else Header(r)
  }

  /** What one row adds to its film in the loop as written. */
  function AddRowAsWritten(film: Film, r: JoinRow): Film {
    var f := if r.genre.id != 0 then film.(genres := film.genres + [r.genre]) else film;
    if r.userId != 0 then f.(likes := f.likes + {r.userId}) else f
  }

  /** What one row adds to its film when a genre is appended only once. */
  function AddRow(film: Film, r: JoinRow): Film {
    var f := if r.genre.id != 0 && r.genre !in film.genres then film.(genres := film.genres + [r.genre]) else film;
    if r.userId != 0 then f.(likes := f.likes + {r.userId}) else f
  }

  /** A film with no row has no genres and no likes. */
  lemma {:induction false} AbsentFilm(rows: seq<JoinRow>, id: int)
    requires id !in FilmIdsOf(rows)
    ensures GenresOf(rows, id) == [] && LikesOf(rows, id) == {}
  {
    if rows != [] {
      var p, r := rows[..|rows| - 1], rows[|rows| - 1];
      assert rows == p + [r];
      FilmIdsOfAppend(p, r);
      AbsentFilm(p, id);
    }
  }

  /** Appending a row changes only its own film, by one step of the loop as written. */
  lemma AssembledAsWrittenAppend(p: seq<JoinRow>, r: JoinRow, id: int)
    requires id in FilmIdsOf(p) || id == r.filmId
    ensures id in FilmIdsOf(p + [r])
    ensures AssembledAsWritten(p + [r], id) ==
      if id != r.filmId then AssembledAsWritten(p, id)
      else AddRowAsWritten(if id in FilmIdsOf(p) then AssembledAsWritten(p, id) else Header(r), r)
  {
    FilmIdsOfAppend(p, r);
    GenresOfAppend(p, r, id);
    LikesOfAppend(p, r, id);
    if id in FilmIdsOf(p) {
      FirstRowOfAppend(p, r, id);
    } else {
      FirstRowOfNew(p, r);
      AbsentFilm(p, id);
    }
  }

  /** Appending a row changes only its own film, by one step of the corrected loop. */
  lemma AssembledAppend(p: seq<JoinRow>, r: JoinRow, id: int)
    requires id in FilmIdsOf(p) || id == r.filmId
    ensures id in FilmIdsOf(p + [r])
    ensures Assembled(p + [r], id) ==
      if id != r.filmId then Assembled(p, id)
      else AddRow(if id in FilmIdsOf(p) then Assembled(p, id) else Header(r), r)
  {
    FilmIdsOfAppend(p, r);
    GenresOfAppend(p, r, id);
    LikesOfAppend(p, r, id);
    if id != r.filmId {
      FirstRowOfAppend(p, r, id);
    } else if id in FilmIdsOf(p) {
      FirstRowOfAppend(p, r, id);
      DedupAppend(GenresOf(p, id), r.genre);
      DedupMembership(GenresOf(p, id), r.genre);
    } else {
      FirstRowOfNew(p, r);
      AbsentFilm(p, id);
      DedupAppend([], r.genre);
    }
  }

  /** The film map after folding the rows in order with the loop body as written. */
  function GroupAsWritten(rows: seq<JoinRow>): map<int, Film> {
    if rows == [] then map[]
    else
      var m, r := GroupAsWritten(rows[..|rows| - 1]), rows[|rows| - 1];
      m[r.filmId := AddRowAsWritten(Pick(m, r), r)]
  }

  /** The film map after folding the rows in order with the corrected loop body. */
  function Group(rows: seq<JoinRow>): map<int, Film> {
    if rows == [] then map[]
    else
      var m, r := Group(rows[..|rows| - 1]), rows[|rows| - 1];
      m[r.filmId := AddRow(Pick(m, r), r)]
  }

  /** Both folds hold one film per distinct film id of the rows. */
  lemma {:induction false} GroupKeys(rows: seq<JoinRow>)
    ensures GroupAsWritten(rows).Keys == FilmIdsOf(rows)
    ensures Group(rows).Keys == FilmIdsOf(rows)
  {
    if rows != [] {
      var p, r := rows[..|rows| - 1], rows[|rows| - 1];
      assert rows == p + [r];
      GroupKeys(p);
      FilmIdsOfAppend(p, r);
    }
  }

  /** The fold as written builds, for each film, its as-written assembly. */
  lemma {:induction false} GroupAsWrittenAssembles(rows: seq<JoinRow>, id: int)
    requires id in FilmIdsOf(rows)
    ensures id in GroupAsWritten(rows) && GroupAsWritten(rows)[id] == AssembledAsWritten(rows, id)
  {
    GroupKeys(rows);
    var p, r := rows[..|rows| - 1], rows[|rows| - 1];
    assert rows == p + [r];
    FilmIdsOfAppend(p, r);
    GroupKeys(p);
    if id in FilmIdsOf(p) {
      GroupAsWrittenAssembles(p, id);
    }
    AssembledAsWrittenAppend(p, r, id);
  }

  /** One more row is one more step of the fold as written. */
  lemma GroupAsWrittenStep(rows: seq<JoinRow>, i: int)
    requires 0 <= i < |rows|
    ensures var m := GroupAsWritten(rows[..i]);
      GroupAsWritten(rows[..i + 1]) == m[rows[i].filmId := AddRowAsWritten(Pick(m, rows[i]), rows[i])]
  {
    assert rows[..i + 1][..i] == rows[..i];
  }

  /** One more row is one more step of the corrected fold. */
  lemma GroupStep(rows: seq<JoinRow>, i: int)
    requires 0 <= i < |rows|
    ensures var m := Group(rows[..i]);
      Group(rows[..i + 1]) == m[rows[i].filmId := AddRow(Pick(m, rows[i]), rows[i])]
  {
    assert rows[..i + 1][..i] == rows[..i];
  }

  /** The corrected fold builds, for each film, its corrected assembly. */
  lemma {:induction false} GroupAssembles(rows: seq<JoinRow>, id: int)
    requires id in FilmIdsOf(rows)
    ensures id in Group(rows) && Group(rows)[id] == Assembled(rows, id)
  {
    GroupKeys(rows);
    var p, r := rows[..|rows| - 1], rows[|rows| - 1];
    assert rows == p + [r];
    FilmIdsOfAppend(p, r);
    GroupKeys(p);
    if id in FilmIdsOf(p) {
      GroupAssembles(p, id);
    }
    AssembledAppend(p, r, id);
  }

  /** The fold as written holds exactly one as-written assembly per film of the rows. */
  lemma GroupAsWrittenIsAssembled(rows: seq<JoinRow>)
    ensures GroupAsWritten(rows).Keys == FilmIdsOf(rows)
    ensures forall id :: id in GroupAsWritten(rows) ==> GroupAsWritten(rows)[id] == AssembledAsWritten(rows, id)
  {
    GroupKeys(rows);
    forall id | id in GroupAsWritten(rows) ensures GroupAsWritten(rows)[id] == AssembledAsWritten(rows, id) {
      GroupAsWrittenAssembles(rows, id);
    }
  }

  /** The corrected fold holds exactly one corrected assembly per film of the rows. */
  lemma GroupIsAssembled(rows: seq<JoinRow>)
    ensures Group(rows).Keys == FilmIdsOf(rows)
    ensures forall id :: id in Group(rows) ==> Group(rows)[id] == Assembled(rows, id)
  {
    GroupKeys(rows);
    forall id | id in Group(rows) ensures Group(rows)[id] == Assembled(rows, id) {
      GroupAssembles(rows, id);
    }
  }

  /**
   * `makeFilm` as written: every row with a genre appends that genre to its
   * film, so a genre is repeated once per like row of the film.
   */
  method MakeFilmAsWritten(rows: seq<JoinRow>) returns (last: Option<Film>, films: map<int, Film>)
    ensures films.Keys == FilmIdsOf(rows)
    ensures forall id :: id in films ==> films[id] == AssembledAsWritten(rows, id)
    ensures rows == [] <==> last.None?
    ensures rows != [] ==> last == Some(AssembledAsWritten(rows, rows[|rows| - 1].filmId))
  {
    films := map[];
    last := None;
    var i := 0;
    while i < |rows|
      invariant 0 <= i <= |rows|
      invariant films == GroupAsWritten(rows[..i])
      invariant i == 0 <==> last.None?
      invariant i > 0 ==> rows[i - 1].filmId in films && last == Some(films[rows[i - 1].filmId])
    {
      var r := rows[i];
      var film := Pick(films, r);
      if r.genre.id != 0 {
        film := film.(genres := film.genres + [r.genre]);
      }
      if r.userId != 0 {
        film := film.(likes := film.likes + {r.userId});
      }
      assert film == AddRowAsWritten(Pick(films, r), r);
      GroupAsWrittenStep(rows, i);
      films := films[r.filmId := film];
      last := Some(film);
      i := i + 1;
    }
    assert rows[..i] == rows;
    GroupAsWrittenIsAssembled(rows);
  }

  /** `makeFilm` with each genre appended only once, at its first row. */
  method MakeFilm(rows: seq<JoinRow>) returns (last: Option<Film>, films: map<int, Film>)
    ensures films.Keys == FilmIdsOf(rows)
    ensures forall id :: id in films ==> films[id] == Assembled(rows, id)
    ensures rows == [] <==> last.None?
    ensures rows != [] ==> last == Some(Assembled(rows, rows[|rows| - 1].filmId))
  {
    films := map[];
    last := None;
    var i := 0;
    while i < |rows|
      invariant 0 <= i <= |rows|
      invariant films == Group(rows[..i])
      invariant i == 0 <==> last.None?
      invariant i > 0 ==> rows[i - 1].filmId in films && last == Some(films[rows[i - 1].filmId])
    {
      var r := rows[i];
      var film := Pick(films, r);
      if r.genre.id != 0 && r.genre !in film.genres {
        film := film.(genres := film.genres + [r.genre]);
      }
      if r.userId != 0 {
        film := film.(likes := film.likes + {r.userId});
      }
      assert film == AddRow(Pick(films, r), r);
      GroupStep(rows, i);
      films := films[r.filmId := film];
      last := Some(film);
      i := i + 1;
    }
    assert rows[..i] == rows;
    GroupIsAssembled(rows);
  }

  /** Where no genre row of the film repeats, the two assemblies agree. */
  lemma AssembliesAgreeWithoutRepeats(rows: seq<JoinRow>, id: int)
    requires id in FilmIdsOf(rows)
    requires NoDuplicates(GenresOf(rows, id))
    ensures Assembled(rows, id) == AssembledAsWritten(rows, id)
  {
    DedupOfDistinct(GenresOf(rows, id));
  }

  /**
   * A film with one genre and two likes: the join yields two rows, and the
   * loop as written lists the genre twice.
   */
  lemma GenreRepeatedPerLike()
    ensures var g := Genre(1, Some("Comedy"));
      var r1 := JoinRow(1, Some("Film"), [], Date(2000, 1, 1), 90, Mpa(1, Some("G")), g, 1);
      var rows := [r1, r1.(userId := 2)];
      && 1 in FilmIdsOf(rows)
      && AssembledAsWritten(rows, 1).genres == [g, g]
      && Assembled(rows, 1).genres == [g]
  {
    var g := Genre(1, Some("Comedy"));
    var r1 := JoinRow(1, Some("Film"), [], Date(2000, 1, 1), 90, Mpa(1, Some("G")), g, 1);
    var r2 := r1.(userId := 2);
    var rows := [r1, r2];
    assert rows[0].filmId == 1;
    assert GenresOf(rows, 1) == [g, g] by {
      assert rows == [r1] + [r2] && [r1] == [] + [r1];
      GenresOfAppend([], r1, 1);
      GenresOfAppend([r1], r2, 1);
    }
    assert Dedup([g, g]) == [g] by {
      assert [g, g][..1] == [g];
      assert [g][..0] == [];
    }
  }

  /** The columns of the `films` table that a join row repeats for its film. */
  predicate RowMatches(r: JoinRow, f: FilmRow) {
    && r.name == f.name
    && r.description == f.description
    && r.releaseDate == f.releaseDate
    && r.duration == f.duration
    && r.mpa.id == f.mpaId
  }

  /**
   * `rows` is a result of the join for the films `ids`: every row repeats its
   * film's columns and carries a genre row and a like row of that film, or
   * NULL, and every genre row and like row of those films appears in some row.
   */
  ghost predicate IsJoin(rows: seq<JoinRow>, ids: set<int>, films: map<int, FilmRow>, filmGenres: seq<Row>, likes: seq<Row>) {
    && FilmIdsOf(rows) == ids
    && (forall i :: 0 <= i < |rows| ==> rows[i].filmId in films && RowMatches(rows[i], films[rows[i].filmId]))
    && (forall i :: 0 <= i < |rows| && rows[i].genre.id != 0 ==> (rows[i].filmId, rows[i].genre.id) in filmGenres)
    && (forall i :: 0 <= i < |rows| && rows[i].userId != 0 ==> (rows[i].filmId, rows[i].userId) in likes)
    && (forall j :: 0 <= j < |filmGenres| && filmGenres[j].0 in ids ==>
          exists i :: 0 <= i < |rows| && rows[i].filmId == filmGenres[j].0 && rows[i].genre.id == filmGenres[j].1)
    && (forall j :: 0 <= j < |likes| && likes[j].0 in ids ==>
          exists i :: 0 <= i < |rows| && rows[i].filmId == likes[j].0 && rows[i].userId == likes[j].1)
  }

  /** `f` shows film `id` as the tables hold it: its columns, its genre rows and its like rows. */
  ghost predicate Describes(f: Film, id: int, films: map<int, FilmRow>, filmGenres: seq<Row>, likes: seq<Row>) {
    && id in films
    && f.id == id
    && f.name == films[id].name
    && f.description == films[id].description
    && f.releaseDate == films[id].releaseDate
    && f.duration == films[id].duration
    && f.mpa.id == films[id].mpaId
    && (forall g :: g in IdsOf(f.genres) <==> (id, g) in filmGenres)
    && (forall u :: u in f.likes <==> (id, u) in likes)
  }

  /**
   * Grouping a join result yields, for each of its films, the film as the
   * tables hold it, with every genre once. Genre ids and user ids are never
   * 0, which is what lets a 0 stand for NULL.
   */
  lemma {:induction false} AssembledDescribes(
    rows: seq<JoinRow>, ids: set<int>, films: map<int, FilmRow>, filmGenres: seq<Row>, likes: seq<Row>, id: int)
    requires IsJoin(rows, ids, films, filmGenres, likes)
    requires forall j :: 0 <= j < |filmGenres| ==> filmGenres[j].1 != 0
    requires forall j :: 0 <= j < |likes| ==> likes[j].1 != 0
    requires id in ids
    ensures Describes(Assembled(rows, id), id, films, filmGenres, likes)
    ensures NoDuplicates(Assembled(rows, id).genres)
  {
    var f := Assembled(rows, id);
    var k := FirstRowOf(rows, id);
    assert RowMatches(rows[k], films[id]);
    var gs := GenresOf(rows, id);
    var d := Dedup(gs);
    forall g ensures g in IdsOf(f.genres) <==> (id, g) in filmGenres {
      if g in IdsOf(f.genres) {
        var m :| 0 <= m < |d| && d[m].id == g;
        assert d[m] in gs;
        GenresOfMembership(rows, id, d[m]);
      }
      if (id, g) in filmGenres {
        var j :| 0 <= j < |filmGenres| && filmGenres[j] == (id, g);
        var i :| 0 <= i < |rows| && rows[i].filmId == id && rows[i].genre.id == g;
        GenresOfMembership(rows, id, rows[i].genre);
        var n :| 0 <= n < |gs| && gs[n] == rows[i].genre;
        assert gs[n] in d;
        var m :| 0 <= m < |d| && d[m] == rows[i].genre;
        assert IdsOf(d)[m] == g;
      }
    }
    forall u ensures u in f.likes <==> (id, u) in likes {
      if (id, u) in likes {
        var j :| 0 <= j < |likes| && likes[j] == (id, u);
        var i :| 0 <= i < |rows| && rows[i].filmId == id && rows[i].userId == u;
      }
    }
  }

  /** `AssembledDescribes` for every film of a list of assembled films. */
  lemma AllAssembledDescribe(
    rows: seq<JoinRow>, ids: set<int>, films: map<int, FilmRow>, filmGenres: seq<Row>, likes: seq<Row>, fs: seq<Film>)
    requires IsJoin(rows, ids, films, filmGenres, likes)
    requires forall j :: 0 <= j < |filmGenres| ==> filmGenres[j].1 != 0
    requires forall j :: 0 <= j < |likes| ==> likes[j].1 != 0
    requires forall i :: 0 <= i < |fs| ==> fs[i].id in ids && fs[i] == Assembled(rows, fs[i].id)
    ensures forall i :: 0 <= i < |fs| ==> Describes(fs[i], fs[i].id, films, filmGenres, likes)
  {
    forall i | 0 <= i < |fs| ensures Describes(fs[i], fs[i].id, films, filmGenres, likes) {
      AssembledDescribes(rows, ids, films, filmGenres, likes, fs[i].id);
    }
  }
}

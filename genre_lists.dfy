/**
 * The genre list of a film update: ids are de-duplicated keeping the first
 * occurrence of each, and every kept id is resolved through the genre
 * reference table.
 */
module GenreLists {
  import opened Model
  import opened Sequences

  /** The ids of a genre list, in order. */
  function IdsOf(genres: seq<Genre>): (r: seq<int>)
    ensures |r| == |genres|
    ensures forall i :: 0 <= i < |genres| ==> r[i] == genres[i].id
  {
    seq(|genres|, i requires 0 <= i < |genres| => genres[i].id)
  }

  /** Resolves each id through the genre table. */
  function Lookup(ids: seq<int>, genreById: int -> Genre): (r: seq<Genre>)
    ensures |r| == |ids|
    ensures forall i :: 0 <= i < |ids| ==> r[i] == genreById(ids[i])
  {
    seq(|ids|, i requires 0 <= i < |ids| => genreById(ids[i]))
  }

  lemma LookupAppend(ids: seq<int>, id: int, genreById: int -> Genre)
    ensures Lookup(ids + [id], genreById) == Lookup(ids, genreById) + [genreById(id)]
  {
  }

  lemma IdsOfAppend(genres: seq<Genre>, g: Genre)
    ensures IdsOf(genres + [g]) == IdsOf(genres) + [g.id]
  {
  }

  /**
   * The `genresList`/`idList` loop of `updateFilm`: a genre is looked up and
   * kept only when its id has not been seen before.
   */
  method DeduplicateGenres(genres: seq<Genre>, genreById: int -> Genre) returns (kept: seq<Genre>)
    ensures kept == Lookup(Dedup(IdsOf(genres)), genreById)
  {
    kept := [];
    var idList: seq<int> := [];
    for i := 0 to |genres|
      invariant idList == IdsOf(genres[..i])
      invariant kept == Lookup(Dedup(idList), genreById)
    {
      var id := genres[i].id;
      DedupAppend(idList, id);
      LookupAppend(Dedup(idList), id, genreById);
      IdsOfAppend(genres[..i], genres[i]);
      assert genres[..i + 1] == genres[..i] + [genres[i]];
      if id !in idList {
        kept := kept + [genreById(id)];
      }
      idList := idList + [id];
    }
    assert genres[..|genres|] == genres;
  }

  /**
   * When the genre table returns a genre under the id it was asked for, the
   * kept list has distinct ids, covers every requested id, keeps nothing
   * else, and lists ids in the order of their first occurrence.
   */
  lemma DeduplicatedGenres(genres: seq<Genre>, genreById: int -> Genre)
    requires forall id :: genreById(id).id == id
    ensures IdsOf(Lookup(Dedup(IdsOf(genres)), genreById)) == Dedup(IdsOf(genres))
    ensures NoDuplicates(IdsOf(Lookup(Dedup(IdsOf(genres)), genreById)))
    ensures forall i :: 0 <= i < |genres| ==> genres[i].id in IdsOf(Lookup(Dedup(IdsOf(genres)), genreById))
    ensures forall id :: id in IdsOf(Lookup(Dedup(IdsOf(genres)), genreById)) ==> id in IdsOf(genres)
    ensures forall i, j :: 0 <= i < j < |Dedup(IdsOf(genres))| ==>
      FirstIndexOf(IdsOf(genres), Dedup(IdsOf(genres))[i]) < FirstIndexOf(IdsOf(genres), Dedup(IdsOf(genres))[j])
  {
    var ids := IdsOf(genres);
    var d := Dedup(ids);
    assert IdsOf(Lookup(d, genreById)) == d;
    forall i | 0 <= i < |genres| ensures genres[i].id in d {
      assert ids[i] == genres[i].id;
    }
    DedupKeepsFirstOccurrenceOrder(ids);
  }
}

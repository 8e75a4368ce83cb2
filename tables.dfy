/**
 * A two-column SQL table as the sequence of its rows, with the statements
 * the DAOs issue against it: INSERT appends, DELETE ... WHERE removes every
 * matching row, SELECT filters.
 */
module Tables {
  import opened Sequences

  /** A row of a two-column table such as `friends(user_id, friend_id)` or `film_likes(film_id, user_id)`. */
  type Row = (int, int)

  /** `SELECT col2 FROM t WHERE col1 = key`, in table order. */
  function Select(rows: seq<Row>, key: int): (r: seq<int>)
    ensures |r| <= |rows|
    ensures forall i :: 0 <= i < |r| ==> (key, r[i]) in rows
    ensures forall i :: 0 <= i < |rows| && rows[i].0 == key ==> rows[i].1 in r
  {
    if rows == [] then []
    else
      var p, last := Select(rows[..|rows| - 1], key), rows[|rows| - 1];
      if last.0 == key then p + [last.1] else p
  }

  /** `DELETE FROM t WHERE col1 = ? AND col2 = ?`. */
  function DeleteRow(rows: seq<Row>, row: Row): (r: seq<Row>)
    ensures forall x :: x in r <==> x in rows && x != row
    ensures multiset(r) == multiset(rows)[row := 0]
  {
    if rows == [] then []
    else
      var p, last := DeleteRow(rows[..|rows| - 1], row), rows[|rows| - 1];
      assert rows == rows[..|rows| - 1] + [last];
      if last == row then p else p + [last]
  }

  /** `DELETE FROM t WHERE col1 = ?`. */
  function DeleteKey(rows: seq<Row>, key: int): (r: seq<Row>)
    ensures forall x :: x in r <==> x in rows && x.0 != key
  {
    if rows == [] then []
    else
      var p, last := DeleteKey(rows[..|rows| - 1], key), rows[|rows| - 1];
      if last.0 == key then p else p + [last]
  }

  /** `UPDATE t SET col2 = v WHERE col1 = key`. */
  function SetValue(rows: seq<Row>, key: int, v: int): (r: seq<Row>)
    ensures |r| == |rows|
    ensures forall i :: 0 <= i < |rows| ==> r[i] == if rows[i].0 == key then (key, v) else rows[i]
  {
    if rows == [] then []
    else
      var last := rows[|rows| - 1];
      SetValue(rows[..|rows| - 1], key, v) + [if last.0 == key then (key, v) else last]
  }

  /** The rows `(key, v)` for each `v` of `vals`, in order, as a loop of INSERTs writes them. */
  function Pairs(key: int, vals: seq<int>): (r: seq<Row>)
    ensures |r| == |vals|
    ensures forall i :: 0 <= i < |vals| ==> r[i] == (key, vals[i])
  {
    if vals == [] then [] else Pairs(key, vals[..|vals| - 1]) + [(key, vals[|vals| - 1])]
  }

  lemma SelectAppend(rows: seq<Row>, row: Row, key: int)
    ensures Select(rows + [row], key) == if row.0 == key then Select(rows, key) + [row.1] else Select(rows, key)
  {
    assert (rows + [row])[..|rows|] == rows;
  }

  /** Deleting a row that is not there changes nothing. */
  lemma {:induction false} DeleteAbsentRow(rows: seq<Row>, row: Row)
    requires row !in rows
    ensures DeleteRow(rows, row) == rows
  {
    if rows != [] {
      assert rows == rows[..|rows| - 1] + [rows[|rows| - 1]];
      DeleteAbsentRow(rows[..|rows| - 1], row);
    }
  }

  /** INSERT of a new row followed by the DELETE of that row restores the table. */
  lemma InsertThenDeleteRestores(rows: seq<Row>, row: Row)
    requires row !in rows
    ensures DeleteRow(rows + [row], row) == rows
  {
    assert (rows + [row])[..|rows|] == rows;
    DeleteAbsentRow(rows, row);
  }

  /** Deleting a row leaves the selection of every other key as it was. */
  lemma {:induction false} SelectAfterDeleteRow(rows: seq<Row>, row: Row, key: int)
    requires key != row.0
    ensures Select(DeleteRow(rows, row), key) == Select(rows, key)
  {
    if rows != [] {
      var p, last := rows[..|rows| - 1], rows[|rows| - 1];
      SelectAfterDeleteRow(p, row, key);
      if last != row {
        SelectAppend(DeleteRow(p, row), last, key);
      }
    }
  }

  /** Deleting `(key, v)` removes exactly the occurrences of `v` from the selection of `key`. */
  lemma {:induction false} SelectAfterDeleteRowSameKey(rows: seq<Row>, key: int, v: int)
    ensures multiset(Select(DeleteRow(rows, (key, v)), key)) == multiset(Select(rows, key))[v := 0]
  {
    if rows != [] {
      var p, last := rows[..|rows| - 1], rows[|rows| - 1];
      SelectAfterDeleteRowSameKey(p, key, v);
      if last != (key, v) {
        SelectAppend(DeleteRow(p, (key, v)), last, key);
      }
    }
  }

  /** Deleting by one key leaves the selection of every other key as it was. */
  lemma {:induction false} SelectAfterDeleteKey(rows: seq<Row>, key: int, k: int)
    ensures Select(DeleteKey(rows, key), k) == if k == key then [] else Select(rows, k)
  {
    if rows != [] {
      var p, last := rows[..|rows| - 1], rows[|rows| - 1];
      SelectAfterDeleteKey(p, key, k);
      if last.0 != key {
        SelectAppend(DeleteKey(p, key), last, k);
      }
    }
  }

  /** Appending the rows `Pairs(key, vals)` extends the selection of `key` by `vals` and no other. */
  lemma {:induction false} SelectAppendPairs(rows: seq<Row>, key: int, vals: seq<int>, k: int)
    ensures Select(rows + Pairs(key, vals), k) == if k == key then Select(rows, k) + vals else Select(rows, k)
  {
    if vals != [] {
      var init, v := vals[..|vals| - 1], vals[|vals| - 1];
      assert rows + Pairs(key, vals) == (rows + Pairs(key, init)) + [(key, v)];
      SelectAppendPairs(rows, key, init, k);
      SelectAppend(rows + Pairs(key, init), (key, v), k);
      assert vals == init + [v];
    } else {
      assert rows + Pairs(key, vals) == rows;
    }
  }

  /** A key no row carries selects nothing. */
  lemma {:induction false} SelectAbsentKey(rows: seq<Row>, key: int)
    requires forall i :: 0 <= i < |rows| ==> rows[i].0 != key
    ensures Select(rows, key) == []
  {
    if rows != [] {
      SelectAbsentKey(rows[..|rows| - 1], key);
    }
  }

  /**
   * Deleting every row of `key` and inserting `Pairs(key, vals)` makes the
   * selection of `key` exactly `vals` and leaves every other key as it was.
   */
  lemma SelectAfterReplaceKey(rows: seq<Row>, key: int, vals: seq<int>, k: int)
    ensures Select(DeleteKey(rows, key) + Pairs(key, vals), k) == if k == key then vals else Select(rows, k)
  {
    SelectAppendPairs(DeleteKey(rows, key), key, vals, k);
    SelectAfterDeleteKey(rows, key, k);
  }

  /** The value `v`, `n` times. */
  function Repeat(v: int, n: nat): (r: seq<int>)
    ensures |r| == n && forall i :: 0 <= i < n ==> r[i] == v
  {
    seq(n, i => v)
  }

  /** After the UPDATE, `key` selects `v` once per row it had, and every other key is as it was. */
  lemma {:induction false} SelectAfterSetValue(rows: seq<Row>, key: int, v: int, k: int)
    ensures Select(SetValue(rows, key, v), k) == if k == key then Repeat(v, |Select(rows, k)|) else Select(rows, k)
  {
    if rows != [] {
      var p, last := rows[..|rows| - 1], rows[|rows| - 1];
      var last' := if last.0 == key then (key, v) else last;
      SelectAfterSetValue(p, key, v, k);
      SelectAppend(SetValue(p, key, v), last', k);
      if k == key && last.0 == key {
        assert Repeat(v, |Select(p, k)| + 1) == Repeat(v, |Select(p, k)|) + [v];
      }
    }
  }
}

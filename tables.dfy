/** The by-id statements the data layer runs against its SQLite tables, over
    an in-memory table: a sequence of rows kept in rowid order. Each table
    has an INTEGER PRIMARY KEY, so its rowid is its `id` column. */
module Tables {
  import opened JsValues

  /** A row: its rowid and the record of its other columns. */
  datatype Row<C> = Row(id: nat, cols: C)

  /** The table in rowid order: positive, strictly increasing ids. */
  predicate Ascending<C>(rows: seq<Row<C>>)
  {
    && (forall i :: 0 <= i < |rows| ==> rows[i].id >= 1)
    && (forall i, j :: 0 <= i < j < |rows| ==> rows[i].id < rows[j].id)
  }

  /** The rowid SQLite gives a row inserted without one: one more than the
      largest rowid in the table, or 1 in an empty table. This is the
      `lastInsertRowid` the callers return. */
  function NextRowId<C>(rows: seq<Row<C>>): (k: nat)
    requires Ascending(rows)
    ensures k >= 1
    ensures forall i :: 0 <= i < |rows| ==> rows[i].id < k
  {
    if rows == [] then 1 else rows[|rows| - 1].id + 1
  }

  /** INSERT without an id: the new row goes last, under the next rowid. */
  function Insert<C>(rows: seq<Row<C>>, cols: C): (r: seq<Row<C>>)
    requires Ascending(rows)
    ensures Ascending(r)
    ensures |r| == |rows| + 1 && r[..|rows|] == rows
    ensures Find(r, r[|rows|].id) == Some(r[|rows|]) && r[|rows|].cols == cols
  {
    var k := NextRowId(rows);
    var r := rows + [Row(k, cols)];
    FindAfterInsert(rows, cols, k);
    r
  }

  /** `SELECT * … WHERE id = ?` read with `.get()`: the first row with that
      id, or nothing. */
  function Find<C>(rows: seq<Row<C>>, id: int): (r: Option<Row<C>>)
    ensures r.Some? ==> r.value in rows && r.value.id == id
    ensures r.None? <==> forall i :: 0 <= i < |rows| ==> rows[i].id != id
  {
    if rows == [] then None
    else if rows[0].id == id then Some(rows[0])
    else Find(rows[1..], id)
  }

  /** `SELECT … WHERE <condition>` read with `.get()`: the first row, in
      table order, that meets the condition, or nothing. */
  function FirstWhere<C>(rows: seq<Row<C>>, cond: Row<C> -> bool): (r: Option<Row<C>>)
    ensures r.Some? ==> r.value in rows && cond(r.value)
    ensures r.None? <==> forall i :: 0 <= i < |rows| ==> !cond(rows[i])
  {
    if rows == [] then None
    else if cond(rows[0]) then Some(rows[0])
    else FirstWhere(rows[1..], cond)
  }

  /** `DELETE … WHERE id = ?`: the rows whose id differs, in their order. */
  function Without<C>(rows: seq<Row<C>>, id: int): (r: seq<Row<C>>)
    ensures forall i :: 0 <= i < |r| ==> r[i] in rows && r[i].id != id
    ensures forall i :: 0 <= i < |rows| && rows[i].id != id ==> rows[i] in r
    ensures |r| <= |rows|
  {
    if rows == [] then []
    else (if rows[0].id == id then [] else [rows[0]]) + Without(rows[1..], id)
  }

  /** `UPDATE … SET … WHERE id = ?`: every row with that id takes the new
      columns; the others are kept as they are. */
  function Replace<C>(rows: seq<Row<C>>, id: int, cols: C): (r: seq<Row<C>>)
    ensures |r| == |rows|
    ensures forall i :: 0 <= i < |rows| ==> r[i].id == rows[i].id
  {
    if rows == [] then []
    else [if rows[0].id == id then Row(rows[0].id, cols) else rows[0]] + Replace(rows[1..], id, cols)
  }

  lemma {:induction false} FindAfterInsert<C>(rows: seq<Row<C>>, cols: C, k: nat)
    requires forall i :: 0 <= i < |rows| ==> rows[i].id < k
    ensures Find(rows + [Row(k, cols)], k) == Some(Row(k, cols))
  {
    if rows != [] {
      assert (rows + [Row(k, cols)])[1..] == rows[1..] + [Row(k, cols)];
      FindAfterInsert(rows[1..], cols, k);
    }
  }

  /** Inserting a row leaves every lookup of another id as it was. */
  lemma {:induction false} FindOtherAfterInsert<C>(rows: seq<Row<C>>, row: Row<C>, id: int)
    requires id != row.id
    ensures Find(rows + [row], id) == Find(rows, id)
  {
    if rows == [] {
    } else {
      assert (rows + [row])[1..] == rows[1..] + [row];
      FindOtherAfterInsert(rows[1..], row, id);
    }
  }

  /** After a delete the id is gone and every other lookup is unchanged. */
  lemma {:induction false} FindWithout<C>(rows: seq<Row<C>>, k: int, id: int)
    ensures Find(Without(rows, k), id) == if id == k then None else Find(rows, id)
  {
    if rows != [] {
      FindWithout(rows[1..], k, id);
      var rest := Without(rows[1..], k);
      if rows[0].id == k {
        assert Without(rows, k) == rest;
      } else {
        assert Without(rows, k) == [rows[0]] + rest;
        assert ([rows[0]] + rest)[1..] == rest;
      }
    }
  }

  /** Deleting keeps the table in rowid order. */
  lemma {:induction false} WithoutAscending<C>(rows: seq<Row<C>>, k: int)
    requires Ascending(rows)
    ensures Ascending(Without(rows, k))
  {
    if rows != [] {
      var tail := rows[1..];
      TailAscending(rows);
      WithoutAscending(tail, k);
      var rest := Without(tail, k);
      if rows[0].id == k {
        assert Without(rows, k) == rest;
      } else {
        KeptAbove(tail, rest, rows[0].id);
        PrependAscending(rows[0], rest);
        assert Without(rows, k) == [rows[0]] + rest;
      }
    }
  }

  /** Rows kept from a table whose ids all exceed a bound exceed it too. */
  lemma KeptAbove<C>(rows: seq<Row<C>>, kept: seq<Row<C>>, lo: int)
    requires forall i :: 0 <= i < |rows| ==> lo < rows[i].id
    requires forall i :: 0 <= i < |kept| ==> kept[i] in rows
    ensures forall i :: 0 <= i < |kept| ==> lo < kept[i].id
  {
    forall i | 0 <= i < |kept| ensures lo < kept[i].id {
      var m :| 0 <= m < |rows| && rows[m] == kept[i];
    }
  }

  /** A row below every row of an ordered table can go in front of it. */
  lemma PrependAscending<C>(x: Row<C>, rest: seq<Row<C>>)
    requires Ascending(rest) && x.id >= 1
    requires forall j :: 0 <= j < |rest| ==> x.id < rest[j].id
    ensures Ascending([x] + rest)
  {
    var r := [x] + rest;
    forall i, j | 0 <= i < j < |r| ensures r[i].id < r[j].id {
      assert r[j] == rest[j - 1];
      if i > 0 {
        assert r[i] == rest[i - 1];
      }
    }
  }

  /** A delete removes exactly one row when the id is present, none otherwise. */
  lemma {:induction false} WithoutSize<C>(rows: seq<Row<C>>, k: int)
    requires Ascending(rows)
    ensures |Without(rows, k)| == if Find(rows, k).Some? then |rows| - 1 else |rows|
  {
    if rows != [] {
      var tail := rows[1..];
      TailAscending(rows);
      WithoutSize(tail, k);
      var rest := Without(tail, k);
      if rows[0].id == k {
        assert Find(tail, k).None?;
        assert Without(rows, k) == rest;
      } else {
        assert Without(rows, k) == [rows[0]] + rest;
        assert Find(rows, k) == Find(tail, k);
      }
    }
  }

  /** The rows after the first stay in order, above the first. */
  lemma TailAscending<C>(rows: seq<Row<C>>)
    requires Ascending(rows) && rows != []
    ensures Ascending(rows[1..])
    ensures forall i :: 0 <= i < |rows[1..]| ==> rows[0].id < rows[1..][i].id
  {
    var tail := rows[1..];
    forall i | 0 <= i < |tail| ensures tail[i] == rows[i + 1] {
    }
  }

  /** Deleting an id that is absent leaves the table as it was. */
  lemma {:induction false} WithoutAbsent<C>(rows: seq<Row<C>>, k: int)
    requires Find(rows, k).None?
    ensures Without(rows, k) == rows
  {
    if rows != [] {
      WithoutAbsent(rows[1..], k);
      assert [rows[0]] + rows[1..] == rows;
    }
  }

  /** After an update, the id reads back with the new columns when it was
      present, and every other lookup is unchanged. */
  lemma {:induction false} FindReplace<C>(rows: seq<Row<C>>, k: int, cols: C, id: int)
    ensures Find(Replace(rows, k, cols), id) ==
              if id == k && Find(rows, k).Some? then Some(Row(Find(rows, k).value.id, cols))
              else Find(rows, id)
  {
    if rows != [] {
      FindReplace(rows[1..], k, cols, id);
    }
  }

  /** Updating keeps the table in rowid order, and changes nothing when the
      id is absent. */
  lemma {:induction false} ReplaceAscending<C>(rows: seq<Row<C>>, k: int, cols: C)
    requires Ascending(rows)
    ensures Ascending(Replace(rows, k, cols))
    ensures Find(rows, k).None? ==> Replace(rows, k, cols) == rows
  {
    if rows != [] {
      ReplaceAscending(rows[1..], k, cols);
    }
  }

  /** Rows are determined by their id. */
  lemma FindUnique<C>(rows: seq<Row<C>>, i: nat)
    requires Ascending(rows) && i < |rows|
    ensures Find(rows, rows[i].id) == Some(rows[i])
  {
    var r := Find(rows, rows[i].id);
    var j :| 0 <= j < |rows| && rows[j] == r.value;
    assert i == j;
  }
}

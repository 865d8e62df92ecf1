/** What the three record controllers share: a table is a sequence of rows,
    each an auto-incremented id with the record's fields; route-model binding
    and `findOrFail` look a row up by id, `delete` removes it, and every
    action answers either that it saved or why it refused. */
module Tables {
  import opened Php

  /** A calendar date, as a day number. */
  type Day = int

  /** A point in time, in seconds since the epoch. */
  type Instant = int

  const SecondsPerDay: int := 86400

  /** Midnight at the start of a day: what a `Y-m-d` string stored in a
      date-time column means. */
  function StartOf(d: Day): (t: Instant)
    ensures t / SecondsPerDay == d && t % SecondsPerDay == 0
  {
    d * SecondsPerDay
  }

  datatype Row<T> = Row(id: nat, fields: T)

  /** Why an action stored nothing: a validation rule failed, a record with
      the same key exists, no employee is known for the request, or the
      route's id names no record (404). */
  datatype Error = Invalid | AlreadyExists | MissingEmployee | NotFound

  datatype Reply = Saved | Refused(error: Error)

  /** No two rows share an id. */
  predicate DistinctIds<T>(rows: seq<Row<T>>) {
    forall i, j :: 0 <= i < j < |rows| ==> rows[i].id != rows[j].id
  }

  /** Every id is below the next auto-increment value. */
  predicate IdsBelow<T>(rows: seq<Row<T>>, bound: nat) {
    forall i :: 0 <= i < |rows| ==> rows[i].id < bound
  }

  /** The position of the row with the given id, if there is one. */
  function IndexOf<T>(rows: seq<Row<T>>, id: nat): (r: Option<nat>)
    ensures r.Some? ==> r.value < |rows| && rows[r.value].id == id
    ensures r.None? <==> forall i :: 0 <= i < |rows| ==> rows[i].id != id
  {
    if rows == [] then None
    else if rows[|rows| - 1].id == id then Some(|rows| - 1)
    else IndexOf(rows[..|rows| - 1], id)
  }

  /** A `where(...)->get()` query: the rows that satisfy the condition, in
      table order. */
  function Where<T(!new)>(rows: seq<Row<T>>, keep: Row<T> -> bool): (r: seq<Row<T>>)
    ensures forall x :: x in r <==> x in rows && keep(x)
    ensures |r| <= |rows|
  {
    if rows == [] then []
    else
      var init := Where(rows[..|rows| - 1], keep);
      var last := rows[|rows| - 1];
      assert rows == rows[..|rows| - 1] + [last];
      if keep(last) then init + [last] else init
  }

  /** The table after `delete`: the rows of every other id, in order. */
  function Without<T(!new)>(rows: seq<Row<T>>, id: nat): (r: seq<Row<T>>)
    ensures forall x :: x in r <==> x in rows && x.id != id
  {
    if rows == [] then []
    else
      var init := Without(rows[..|rows| - 1], id);
      assert rows == rows[..|rows| - 1] + [rows[|rows| - 1]];
      if rows[|rows| - 1].id == id then init else init + [rows[|rows| - 1]]
  }

  lemma WithoutKeepsIds<T(!new)>(rows: seq<Row<T>>, id: nat, bound: nat)
    requires DistinctIds(rows) && IdsBelow(rows, bound)
    ensures DistinctIds(Without(rows, id)) && IdsBelow(Without(rows, id), bound)
  {
    var r := Without(rows, id);
    forall i | 0 <= i < |r|
      ensures r[i].id < bound
    {
      assert r[i] in rows;
    }
    WithoutKeepsDistinctIds(rows, id);
  }

  lemma {:induction false} WithoutKeepsDistinctIds<T(!new)>(rows: seq<Row<T>>, id: nat)
    requires DistinctIds(rows)
    ensures DistinctIds(Without(rows, id))
  {
    if rows != [] {
      var init, last := rows[..|rows| - 1], rows[|rows| - 1];
      WithoutKeepsDistinctIds(init, id);
      var w := Without(init, id);
      forall i | 0 <= i < |w|
        ensures w[i].id != last.id
      {
        assert w[i] in init;
        var j :| 0 <= j < |init| && init[j] == w[i];
        assert rows[j] == init[j];
      }
    }
  }

  /** Deleting an existing row from a table with distinct ids removes
      exactly one row. */
  lemma {:induction false} WithoutRemovesOne<T(!new)>(rows: seq<Row<T>>, id: nat)
    requires DistinctIds(rows)
    requires IndexOf(rows, id).Some?
    ensures |Without(rows, id)| == |rows| - 1
  {
    var init := rows[..|rows| - 1];
    if rows[|rows| - 1].id == id {
      WithoutOfAbsent(init, id);
    } else {
      WithoutRemovesOne(init, id);
    }
  }

  /** Deleting an id no row has changes nothing. */
  lemma {:induction false} WithoutOfAbsent<T(!new)>(rows: seq<Row<T>>, id: nat)
    requires forall i :: 0 <= i < |rows| ==> rows[i].id != id
    ensures Without(rows, id) == rows
  {
    if rows != [] {
      var init := rows[..|rows| - 1];
      WithoutOfAbsent(init, id);
      assert rows == init + [rows[|rows| - 1]];
    }
  }

  /** The table after inserting a row with the next auto-increment id keeps
      its ids distinct and below the advanced counter. */
  lemma InsertKeepsIds<T>(rows: seq<Row<T>>, bound: nat, fields: T)
    requires DistinctIds(rows) && IdsBelow(rows, bound)
    ensures DistinctIds(rows + [Row(bound, fields)]) && IdsBelow(rows + [Row(bound, fields)], bound + 1)
  {
  }

  /** Overwriting the fields of one row keeps every id where it was. */
  lemma SetFieldsKeepsIds<T>(rows: seq<Row<T>>, bound: nat, k: nat, fields: T)
    requires DistinctIds(rows) && IdsBelow(rows, bound) && k < |rows|
    ensures DistinctIds(rows[k := Row(rows[k].id, fields)])
    ensures IdsBelow(rows[k := Row(rows[k].id, fields)], bound)
  {
  }
}

/** What the controllers ask of a `DbSet`: resolving ids with `SingleAsync`,
    reading every row with `ToListAsync`, and the store assigning an unused id. */
module Tables {

  /** A row as a table scan returns it: the id with the stored record. */
  datatype Row<T> = Row(id: int, record: T)

  /** The ids an id list of a transfer object names. */
  function Ids(s: seq<int>): set<int> {
    set x | x in s
  }

  /** Resolves every id of `ids` in `table`, one after another, as the
      `ids.Select(id => table.SingleAsync(row => row.Id == id))` of the controllers
      does; `false` is the first `SingleAsync` that finds no row. */
  method ResolveAll<T>(ids: seq<int>, table: map<int, T>) returns (ok: bool)
    ensures ok <==> Ids(ids) <= table.Keys
  {
    var i := 0;
    while i < |ids|
      invariant 0 <= i <= |ids|
      invariant forall j | 0 <= j < i :: ids[j] in table
    {
      if ids[i] !in table {
        assert ids[i] in Ids(ids);
        return false;
      }
      i := i + 1;
    }
    forall x | x in Ids(ids) ensures x in table {
      var j :| 0 <= j < |ids| && ids[j] == x;
    }
    return true;
  }

  /** Every finite set of ids lies strictly below some bound. */
  lemma {:induction false} UpperBound(keys: set<int>) returns (b: int)
    ensures forall k | k in keys :: k < b
    decreases keys
  {
    if keys == {} {
      b := 0;
    } else {
      assert (forall x :: x !in keys) ==> keys == {};
      var k :| k in keys;
      var rest := UpperBound(keys - {k});
      b := if k + 1 > rest then k + 1 else rest;
      assert forall x | x in keys :: x == k || x in keys - {k};
    }
  }

  /** A table always has an unused id, so the store can always assign one. */
  lemma FreshIdExists(keys: set<int>)
    ensures exists id :: id !in keys
  {
    var b := UpperBound(keys);
    assert b !in keys;
  }

  /** A non-empty set of ids has a least element. */
  lemma {:induction false} HasLeast(s: set<int>)
    requires s != {}
    ensures exists m :: m in s && forall x | x in s :: m <= x
    decreases s
  {
    assert (forall x :: x !in s) ==> s == {};
    var k :| k in s;
    var rest := s - {k};
    assert forall x | x in s :: x == k || x in rest;
    if rest == {} {
      assert forall x | x in s :: k <= x;
    } else {
      HasLeast(rest);
      var m :| m in rest && forall x | x in rest :: m <= x;
      if k < m {
        assert forall x | x in s :: k <= x;
      } else {
        assert forall x | x in s :: m <= x;
      }
    }
  }

  /** The least id of a non-empty set. */
  function LeastId(s: set<int>): (m: int)
    requires s != {}
    ensures m in s && forall x | x in s :: m <= x
  {
    HasLeast(s);
    var m :| m in s && forall x | x in s :: m <= x;
    m
  }

  /** `r` enumerates `s` in strictly ascending order, so each id exactly once. */
  predicate Ascending(r: seq<int>, s: set<int>) {
    && |r| == |s|
    && (forall i | 0 <= i < |r| :: r[i] in s)
    && (forall x | x in s :: x in r)
    && (forall i, j | 0 <= i < j < |r| :: r[i] < r[j])
  }

  /** Putting the least id of `s` in front of an enumeration of the others enumerates `s`. */
  lemma AscendingCons(s: set<int>, m: int, rest: seq<int>)
    requires m in s && forall x | x in s :: m <= x
    requires Ascending(rest, s - {m})
    ensures Ascending([m] + rest, s)
  {
    var r := [m] + rest;
    assert forall i | 0 < i < |r| :: r[i] == rest[i - 1];
    assert forall x | x in s :: x == m || x in s - {m};
  }

  /** The ids of `s` in ascending order, each once. */
  function AscendingIds(s: set<int>): (r: seq<int>)
    ensures Ascending(r, s)
    decreases s
  {
    if s == {} then []
    else
      var m := LeastId(s);
      var rest := AscendingIds(s - {m});
      AscendingCons(s, m, rest);
      [m] + rest
  }

  /** `rows` is a listing of `table`: one row per stored id, each id once,
      each with the record stored under it. */
  predicate Lists<T(==)>(rows: seq<Row<T>>, table: map<int, T>) {
    && |rows| == |table|
    && (forall i | 0 <= i < |rows| :: rows[i].id in table && rows[i].record == table[rows[i].id])
    && (forall id | id in table :: exists i :: 0 <= i < |rows| && rows[i].id == id)
    && (forall i, j | 0 <= i < j < |rows| :: rows[i].id != rows[j].id)
  }

  /** The rows of `table` under the ids `ids`, in that order. */
  function RowsAt<T>(table: map<int, T>, ids: seq<int>): (rows: seq<Row<T>>)
    requires forall i | 0 <= i < |ids| :: ids[i] in table
    ensures |rows| == |ids|
    ensures forall i | 0 <= i < |rows| :: rows[i].id == ids[i] && rows[i].record == table[ids[i]]
  {
    if ids == [] then [] else [Row(ids[0], table[ids[0]])] + RowsAt(table, ids[1..])
  }

  /** The rows under an ascending enumeration of a table's ids list the table. */
  lemma RowsAtLists<T>(table: map<int, T>, ids: seq<int>)
    requires Ascending(ids, table.Keys)
    ensures Lists(RowsAt(table, ids), table)
  {
    var rows := RowsAt(table, ids);
    assert |table| == |table.Keys|;
    forall id | id in table ensures exists i :: 0 <= i < |rows| && rows[i].id == id {
      var i :| 0 <= i < |ids| && ids[i] == id;
      assert rows[i].id == id;
    }
  }

  /** `ToListAsync` on a table: every row, in ascending id order. */
  function ListTable<T(==)>(table: map<int, T>): (rows: seq<Row<T>>)
    ensures Lists(rows, table)
  {
    var ids := AscendingIds(table.Keys);
    RowsAtLists(table, ids);
    RowsAt(table, ids)
  }
}

/**
 * The `logs` table: rows of (mount, time, bytes), where `time` is seconds
 * since the epoch and `bytes` the free space of the mount at that time. The
 * table is only ever appended to. The three queries the program runs on it are
 * given here as functions of the rows.
 */
module LogStore {
  import opened Optional
  import opened Disks

  /** One row of the `logs` table. */
  datatype Row = Row(mount: string, time: int, bytes: u64)

  /** SELECT ... FROM logs WHERE time > start ORDER BY time ASC LIMIT 1: the
      earliest row strictly later than `start`, whatever its mount. Among rows
      with the same time the one stored first is chosen. */
  function EarliestAfter(rows: seq<Row>, start: int): (r: Option<Row>)
    ensures r.None? <==> forall k :: 0 <= k < |rows| ==> rows[k].time <= start
    ensures r.Some? ==> r.value in rows && r.value.time > start
    ensures r.Some? ==> forall k :: 0 <= k < |rows| && rows[k].time > start ==> r.value.time <= rows[k].time
  {
    if rows == [] then None
    else
      var rest := EarliestAfter(rows[1..], start);
      if rows[0].time > start && (rest.None? || rows[0].time <= rest.value.time) then Some(rows[0])
      else rest
  }

  /** SELECT MAX(time) FROM logs: the latest time logged, None for an empty
      table. */
  function MaxTime(rows: seq<Row>): (t: Option<int>)
    ensures t.None? <==> rows == []
    ensures t.Some? ==> exists k :: 0 <= k < |rows| && rows[k].time == t.value
    ensures t.Some? ==> forall k :: 0 <= k < |rows| ==> rows[k].time <= t.value
  {
    if rows == [] then None
    else
      var rest := MaxTime(rows[1..]);
      if rest.None? || rows[0].time >= rest.value then Some(rows[0].time) else rest
  }

  /** SELECT time, bytes FROM logs WHERE mount = m: the rows of one mount, in
      the order they were stored. */
  function RowsOf(rows: seq<Row>, mount: string): (r: seq<Row>)
    ensures forall x :: x in r ==> x in rows && x.mount == mount
    ensures forall x :: x in rows && x.mount == mount ==> x in r
    ensures forall x :: multiset(r)[x] == (if x.mount == mount then multiset(rows)[x] else 0)
  {
    if rows == [] then []
    else
      assert rows == [rows[0]] + rows[1..];
      (if rows[0].mount == mount then [rows[0]] else []) + RowsOf(rows[1..], mount)
  }

  /** A wider window never finds a later sample than a narrower one: if a
      sample exists after `b` then one exists after any earlier `a`, and it is
      no later. */
  lemma {:induction false} WiderWindowOlderSample(rows: seq<Row>, a: int, b: int)
    requires a <= b
    requires EarliestAfter(rows, b).Some?
    ensures EarliestAfter(rows, a).Some?
    ensures EarliestAfter(rows, a).value.time <= EarliestAfter(rows, b).value.time
  {
    var rb := EarliestAfter(rows, b).value;
    var k :| 0 <= k < |rows| && rows[k] == rb;
    assert rows[k].time > a;
  }

  /** The table as the program holds it through its database handle. Opening
      the database file and creating the table if it does not exist leaves the
      rows already in the file; after that rows are only appended. */
  class LogTable {
    var rows: seq<Row>

    constructor Open(existing: seq<Row>)
      ensures rows == existing
    {
      rows := existing;
    }

    /** INSERT INTO logs VALUES (mount, time, bytes). */
    method Insert(row: Row)
      modifies this
      ensures rows == old(rows) + [row]
    {
      rows := rows + [row];
    }
  }
}

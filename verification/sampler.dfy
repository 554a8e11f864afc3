/**
 * The logging schedule and the program's state. At start-up the logger
 * sleeps so that its first log lands a whole number of intervals after the
 * last logged time; then every interval it refreshes the snapshot and logs
 * one row per disk. The info and data pages read the snapshot and the table.
 */
module Sampler {
  import opened Optional
  import opened Mounts
  import opened Disks
  import opened LogStore
  import opened Trend

  /** How often to log, in seconds. */
  const LogInterval: int := 900

  /** The time `k` intervals after `last`. */
  function Boundary(last: int, k: int, interval: int): int {
    last + k * interval
  }

  /** The sleep before the first log, given the latest logged time (None for
      an empty table) and the time now. With no earlier log there is no
      sleep. Otherwise the first log lands on the first boundary `last + k *
      interval` strictly after now, so the sleep is in (0, interval] whenever
      the last log is not in the future. */
  function InitialSleep(last: Option<int>, now: int, interval: int): (s: int)
    requires interval > 0
    ensures last.None? ==> s == 0
    ensures last.Some? && now - last.value < interval ==> now + s == last.value + interval
    ensures last.Some? && 0 <= now - last.value ==>
      0 < s <= interval && exists m :: now + s == Boundary(last.value, m, interval)
  {
    match last
    case None => 0
    case Some(t) =>
      var elapsed := now - t;
      if elapsed < interval then
        assert now + (interval - elapsed) == Boundary(t, 1, interval);
        interval - elapsed
      else
        var s := interval - elapsed % interval;
        assert now + s == Boundary(t, elapsed / interval + 1, interval) by {
          assert elapsed == (elapsed / interval) * interval + elapsed % interval;
        }
        s
  }

  /** No boundary after `last` falls strictly between now and the first log:
      the first log is the next aligned time, never a later one. */
  lemma {:induction false} FirstBoundaryAfterNow(last: int, now: int, interval: int, k: int)
    requires interval > 0 && last <= now
    requires now < Boundary(last, k, interval)
    ensures now + InitialSleep(Some(last), now, interval) <= Boundary(last, k, interval)
  {
    var s := InitialSleep(Some(last), now, interval);
    var m :| now + s == Boundary(last, m, interval);
    if k >= m {
      MulLe(m, k, interval);
    } else {
      MulLe(k, m - 1, interval);
    }
  }

  lemma MulLe(a: int, b: int, c: int)
    requires a <= b && c >= 0
    ensures a * c <= b * c
  {
    assert b * c - a * c == (b - a) * c;
  }

  /** The worked case: logging every 900 seconds, last log 300 seconds ago,
      the first log comes after 600 seconds. */
  lemma AlignmentExample(now: int)
    ensures InitialSleep(Some(now - 300), now, LogInterval) == 600
  {
  }

  /** The rows one log writes: one per disk of the snapshot, in snapshot
      order, each with the disk's mount, the time of the log and the disk's
      free space. */
  function TickRows(disks: seq<Disk>, now: int): (rows: seq<Row>)
    ensures |rows| == |disks|
    ensures forall i :: 0 <= i < |disks| ==> rows[i] == Row(disks[i].mount, now, disks[i].available)
  {
    if disks == [] then [] else [Row(disks[0].mount, now, disks[0].available)] + TickRows(disks[1..], now)
  }

  /** After a log of a non-empty snapshot, the latest logged time is that of
      the log if it is not older than the table's latest; the next start-up
      aligns to it. */
  lemma {:induction false} TickSetsLastLogTime(rows: seq<Row>, disks: seq<Disk>, now: int)
    requires disks != []
    requires forall k :: 0 <= k < |rows| ==> rows[k].time <= now
    ensures MaxTime(rows + TickRows(disks, now)) == Some(now)
  {
    var all := rows + TickRows(disks, now);
    assert all[|rows|].time == now;
    forall k | 0 <= k < |all| ensures all[k].time <= now {
      if k < |rows| {
        assert all[k] == rows[k];
      } else {
        assert all[k] == TickRows(disks, now)[k - |rows|];
      }
    }
  }

  /** After a log of a non-empty snapshot, every trend window that starts
      before the log finds a sample. */
  lemma {:induction false} TickFeedsTrend(rows: seq<Row>, disks: seq<Disk>, now: int, start: int)
    requires disks != [] && start < now
    ensures EarliestAfter(rows + TickRows(disks, now), start).Some?
  {
    var all := rows + TickRows(disks, now);
    assert all[|rows|].time == now;
  }

  /** The program's global state: the current snapshot and the database. */
  class DiskTool {
    var diskInfo: seq<Disk>
    const db: LogTable

    constructor (db: LogTable)
      ensures this.db == db && diskInfo == []
    {
      this.db := db;
      diskInfo := [];
    }

    /** updateDiskInfo: build the snapshot of the watchlist and replace the
        current one with it as a whole. */
    method UpdateDiskInfo(watchList: seq<string>, statfs: string -> StatFs)
      modifies this
      ensures diskInfo == Snapshot(watchList, statfs)
    {
      var dInfo: seq<Disk> := [];
      for i := 0 to |watchList|
        invariant dInfo == Snapshot(watchList[..i], statfs)
      {
        var dir := watchList[i];
        dInfo := dInfo + [MakeDisk(dir, statfs(dir))];
        assert watchList[..i + 1] == watchList[..i] + [dir];
        SnapshotSnoc(watchList[..i], dir, statfs);
      }
      assert watchList[..|watchList|] == watchList;
      diskInfo := dInfo;
    }

    /** One log: refresh the snapshot, then log it. */
    method Tick(now: int, watchList: seq<string>, statfs: string -> StatFs)
      modifies this, db
      ensures diskInfo == Snapshot(watchList, statfs)
      ensures db.rows == old(db.rows) + TickRows(diskInfo, now)
    {
      UpdateDiskInfo(watchList, statfs);
      LogSnapshot(now);
    }

    /** The inserts of one log: one row per disk of the current snapshot,
        stamped with the time `now`, appended after the rows already in the
        table, which are left as they are. */
    method LogSnapshot(now: int)
      modifies db
      ensures db.rows == old(db.rows) + TickRows(diskInfo, now)
    {
      var disks := diskInfo;
      for i := 0 to |disks|
        invariant db.rows == old(db.rows) + TickRows(disks[..i], now)
      {
        var disk := disks[i];
        db.Insert(Row(disk.mount, now, disk.available));
        assert disks[..i + 1] == disks[..i] + [disk];
        TickRowsAppend(disks[..i], [disk], now);
      }
      assert disks[..|disks|] == disks;
    }

    /** The sleep before the first log, from the latest time in the table. */
    method StartupSleep(now: int, interval: int) returns (s: int)
      requires interval > 0
      ensures db.rows == [] ==> s == 0
      ensures db.rows != [] && (forall k :: 0 <= k < |db.rows| ==> db.rows[k].time <= now) ==>
        0 < s <= interval
        && exists k, m :: 0 <= k < |db.rows| && now + s == Boundary(db.rows[k].time, m, interval)
      ensures s == InitialSleep(MaxTime(db.rows), now, interval)
    {
      var last := MaxTime(db.rows);
      s := InitialSleep(last, now, interval);
    }

    /** infoHandler: the trend of the disk the escaped name in the URL stands
        for, or None (a Bad Request) when the snapshot has no such disk. */
    method Info(escapedName: string, now: int) returns (r: Option<StatsInfo>)
      ensures r.None? <==> forall j :: 0 <= j < |diskInfo| ==> diskInfo[j].mount != Unescape(escapedName)
      ensures r.Some? ==>
        && r.value.disk in diskInfo && r.value.disk.mount == Unescape(escapedName)
        && (exists i :: 0 <= i < |diskInfo| && diskInfo[i] == r.value.disk
              && (forall j :: 0 <= j < i ==> diskInfo[j].mount != Unescape(escapedName)))
        && r.value.month == WindowChange(r.value.disk.available, EarliestAfter(db.rows, now - Month))
        && r.value.week == WindowChange(r.value.disk.available, EarliestAfter(db.rows, now - Week))
        && r.value.day == WindowChange(r.value.disk.available, EarliestAfter(db.rows, now - Day))
      ensures forall d :: d in diskInfo && '@' !in d.mount && escapedName == Escape(d.mount) ==>
        r.Some? && r.value.disk.mount == d.mount
    {
      var disk := ResolveDisk(diskInfo, escapedName);
      if disk.None? {
        return None;
      }
      var stats := GetStatsInfo(disk.value, now, db.rows);
      return Some(stats);
    }

    /** dataHandler: the logged (time, bytes) history of the disk the escaped
        name stands for, or None when the snapshot has no such disk. */
    method Data(escapedName: string) returns (r: Option<seq<Row>>)
      ensures r.None? <==> forall j :: 0 <= j < |diskInfo| ==> diskInfo[j].mount != Unescape(escapedName)
      ensures r.Some? ==> forall x :: x in r.value <==> x in db.rows && x.mount == Unescape(escapedName)
      ensures r.Some? ==> forall x ::
        multiset(r.value)[x] == (if x.mount == Unescape(escapedName) then multiset(db.rows)[x] else 0)
    {
      var disk := ResolveDisk(diskInfo, escapedName);
      if disk.None? {
        return None;
      }
      return Some(RowsOf(db.rows, disk.value.mount));
    }
  }

  /** The rows of two pieces of a snapshot are the two row lists in turn. */
  lemma {:induction false} TickRowsAppend(a: seq<Disk>, b: seq<Disk>, now: int)
    ensures TickRows(a + b, now) == TickRows(a, now) + TickRows(b, now)
  {
    var l, r := TickRows(a + b, now), TickRows(a, now) + TickRows(b, now);
    assert |l| == |r|;
    forall i | 0 <= i < |l| ensures l[i] == r[i] {
      if i < |a| {
        assert (a + b)[i] == a[i];
      } else {
        assert (a + b)[i] == b[i - |a|];
      }
    }
  }
}

/**
 * The trend shown on a disk's info page: for the last 30 days, 7 days and
 * 1 day, how much the free space has changed since the first sample logged
 * after the start of that window.
 */
module Trend {
  import opened Optional
  import opened Disks
  import opened LogStore

  const Month: int := 2592000
  const Week: int := 604800
  const Day: int := 86400

  /** The text of one change: "ERROR" when there is no sample, the byte count
      when free space grew, and the byte count after a "-" otherwise. */
  datatype Shown = ErrorText | Plain(bytes: u64) | Minus(bytes: u64)

  /** One window's change and its "positive" flag. */
  datatype Change = Change(shown: Shown, positive: bool)

  /** statsInfo: the disk and its three changes, month first. */
  datatype StatsInfo = StatsInfo(disk: Disk, month: Change, week: Change, day: Change)

  /** The signed number of bytes a shown change stands for. */
  function Signed(s: Shown): int {
    match s
    case ErrorText => 0
    case Plain(n) => n as int
    case Minus(n) => -(n as int)
  }

  /** The change of one window, given the disk's free space now and the past
      sample the query found. The shown amount is exactly the growth of free
      space (negative when it shrank), and it is flagged positive exactly when
      free space grew; an unchanged disk shows "-0" and is not positive. */
  function WindowChange(available: u64, past: Option<Row>): (c: Change)
    ensures c.shown == ErrorText <==> past.None?
    ensures past.Some? ==> Signed(c.shown) == available as int - past.value.bytes as int
    ensures c.positive <==> past.Some? && available > past.value.bytes
    ensures past.Some? && available <= past.value.bytes ==> c.shown.Minus?
  {
    match past
    case None => Change(ErrorText, false)
    case Some(row) =>
      if available > row.bytes then Change(Plain(available - row.bytes), true)
      else Change(Minus(row.bytes - available), false)
  }

  /** getStatsInfo: one query per window start, in order, and one change per
      query. */
  method GetStatsInfo(disk: Disk, now: int, rows: seq<Row>) returns (s: StatsInfo)
    ensures s.disk == disk
    ensures s.month == WindowChange(disk.available, EarliestAfter(rows, now - Month))
    ensures s.week == WindowChange(disk.available, EarliestAfter(rows, now - Week))
    ensures s.day == WindowChange(disk.available, EarliestAfter(rows, now - Day))
  {
    var times: seq<int> := [];
    times := times + [now - Month];
    times := times + [now - Week];
    times := times + [now - Day];

    var results: seq<Shown> := [];
    var changeValue: seq<bool> := [];
    for i := 0 to |times|
      invariant |results| == i && |changeValue| == i
      invariant forall k :: 0 <= k < i ==>
        Change(results[k], changeValue[k]) == WindowChange(disk.available, EarliestAfter(rows, times[k]))
    {
      var past := EarliestAfter(rows, times[i]);
      if past.None? {
        results := results + [ErrorText];
        changeValue := changeValue + [false];
      } else if disk.available > past.value.bytes {
        results := results + [Plain(disk.available - past.value.bytes)];
        changeValue := changeValue + [true];
      } else {
        results := results + [Minus(past.value.bytes - disk.available)];
        changeValue := changeValue + [false];
      }
    }
    s := StatsInfo(disk, Change(results[0], changeValue[0]), Change(results[1], changeValue[1]),
                   Change(results[2], changeValue[2]));
  }

  /** The sample query does not look at the mount: with a row of another
      mount logged earliest in the window, the month change of `/a` is taken
      against that mount's free space. */
  lemma OtherMountSample()
    ensures var rows := [Row("/b", 10, 5), Row("/a", 20, 100)];
      && EarliestAfter(rows, 100 - Month) == Some(Row("/b", 10, 5))
      && WindowChange(100, EarliestAfter(rows, 100 - Month)) == Change(Plain(95), true)
  {
    var rows := [Row("/b", 10, 5), Row("/a", 20, 100)];
    assert rows[1..] == [Row("/a", 20, 100)];
    assert rows[1..][1..] == [];
  }

  /** Samples for /data at t=0 (1000 bytes free) and t=1000 (800 bytes free):
      the sample after t=500 is the second one, and a disk with 700 bytes free
      now shows "-100". */
  lemma SampleExample()
    ensures var rows := [Row("/data", 0, 1000), Row("/data", 1000, 800)];
      && EarliestAfter(rows, 500) == Some(Row("/data", 1000, 800))
      && WindowChange(700, EarliestAfter(rows, 500)) == Change(Minus(100), false)
  {
    var rows := [Row("/data", 0, 1000), Row("/data", 1000, 800)];
    assert rows[1..] == [Row("/data", 1000, 800)];
    assert rows[1..][1..] == [];
  }
}

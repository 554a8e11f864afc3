# disk-tool: a verified model of its sampling and trend logic

disk-tool watches a list of mount points. Every 900 seconds it logs each mount's
free space into a `logs(mount, time, bytes)` table. It serves pages that show
each disk's size, used space and percentage used. For the last 30 days, 7 days
and 1 day, the pages also show how much the free space has changed.

This project models the program's decision logic in Dafny and proves
properties about it:

- `Mounts` (mounts.dfy): the `/` → `@` escaping of mount names in links and
  the `@` → `/` un-escaping on the info and data pages.
- `WatchList` (watchlist.dfy): splitting the watchlist text into lines, Go's
  `strings.TrimSpace`, and the comment filter of `getWatchList`.
- `Disks` (disks.dfy): the 64-bit arithmetic of `updateDiskInfo` (size, free,
  used, rounded percentage), the snapshot of a watchlist, and the lookup of a
  disk by the name in a URL.
- `LogStore` (logstore.dfy): the `logs` table as a sequence of rows in an
  append-only class, plus the three queries run on it (`MAX(time)`, the
  earliest row after a time, and the rows of one mount).
- `Trend` (trend.dfy): `getStatsInfo`, which gives three changes of free
  space, month first.
- `Sampler` (sampler.dfy): the start-up alignment sleep of `logDiskInfo`, one
  logging tick, and the program's global state (`diskInfo` and the database)
  as the class `DiskTool`.
- `Optional` (option.dfy): the `Option` type.

Inputs from outside the program are parameters of the model:

- the file system's block counts: a function from mount to `StatFs`;
- the clock: `now`, in seconds;
- the watchlist file: its text.

### Behaviour worth knowing

- The trend query takes the earliest row whose time is *strictly after* the
  window start. It does this across *all* mounts, not only the disk's own
  (`Trend.OtherMountSample` shows a case).
- A window with no sample shows the text `ERROR` with the flag false.
- Blank lines of the watchlist are kept as the mount `""`. This includes the
  empty line after a final newline.
- An unchanged disk shows `-0` and is not flagged positive.
- A file system that cannot be read is not skipped. Its `Statfs_t` stays zero,
  so it gives a disk of size 0.

## Model

| member | source | states |
|---|---|---|
| `Mounts.ReplaceChar` | disk-tool.go:145 | replacing a character keeps the length and changes exactly the positions that held that character |
| `Mounts.Escape` | disk-tool.go:145 | the escaped name has the mount's length and no `/` |
| `Mounts.Unescape` | disk-tool.go:51 | the un-escaped name has the requested name's length and no `@`; the data page uses the same replace (line 65) |
| `Mounts.RoundTrip` | disk-tool.go:51 | un-escaping the escaped name gives the mount back if and only if the mount has no `@` |
| `Mounts.EscapeInjective` | disk-tool.go:145 | two `@`-free mounts with the same escaped name are the same mount |
| `Mounts.AtSignLost` | disk-tool.go:65 | the mount `/a@b` comes back as `/a/b`, so its pages cannot be reached |
| `WatchList.Latin1Spaces` | disk-tool.go:228 | the white space `IsSpace` recognises, in the Latin-1 range, is exactly tab, newline, vertical tab, form feed, carriage return, space, NEL and no-break space, as `unicode.IsSpace` defines it |
| `WatchList.TrimSpace` | disk-tool.go:228 | the trimmed line is no longer than the line and neither starts nor ends with white space |
| `WatchList.TrimLeftDrops` | disk-tool.go:228 | trimming the front drops only white space and stops at a non-space |
| `WatchList.TrimRightDrops` | disk-tool.go:228 | trimming the back drops only white space and stops at a non-space |
| `WatchList.TrimSpaceSlice` | disk-tool.go:228 | `TrimSpace` gives a contiguous part of the line with only white space around it, and no white space at either end |
| `WatchList.TrimSpaceFixed` | disk-tool.go:228 | a line without white space at its ends is unchanged by trimming |
| `WatchList.TrimSpaceIdempotent` | disk-tool.go:228 | trimming twice equals trimming once |
| `WatchList.Split` | disk-tool.go:221 | splitting on `\n` gives one more piece than there are newlines, and no piece contains a newline |
| `WatchList.JoinSplit` | disk-tool.go:221 | joining the pieces with `\n` gives the text back |
| `WatchList.SplitJoin` | disk-tool.go:221 | splitting the join of newline-free lines gives exactly those lines |
| `WatchList.IsComment` | disk-tool.go:227 | a line is a comment if and only if `#` is a prefix of it, before any trimming |
| `WatchList.Parse` | disk-tool.go:225-230 | a list of lines never gives more mounts than it has lines |
| `WatchList.ParseAppend` | disk-tool.go:225-230 | lines are handled one at a time, so the mounts keep file order |
| `WatchList.ParseContents` | disk-tool.go:225-230 | one mount per non-comment line; each such line, trimmed, is a mount; each mount is a trimmed non-comment line |
| `WatchList.GetWatchList` | disk-tool.go:218-232 | the loop's result is the parse of the split file text |
| `WatchList.SplitTrailingNewline` | disk-tool.go:221 | a text that ends in a newline splits into the lines before it plus one empty line |
| `WatchList.BlankLineWatched` | disk-tool.go:221-230 | a watchlist file that ends in a newline always watches the blank mount `""` |
| `WatchList.IndentedHashWatched` | disk-tool.go:227-228 | a line that starts with a space and then `#` is not a comment; it is watched, and after trimming it starts with `#` |
| `Disks.WrapReads` | disk-tool.go:150 | `uint64()` keeps a value that is in range, and reads a negative value down to -2^64 as that value plus 2^64 |
| `Disks.WrapDifference` | disk-tool.go:156 | uint64 subtraction is exact when the result is not negative, and 2^64 more otherwise |
| `Disks.Percentage` | disk-tool.go:158 | for `0 < size` and `used <= size`: the percentage is at most 100, and it is the integer nearest to `100*used/size`, with halves rounded up |
| `Disks.ToUint8` | disk-tool.go:158 | converting the rounded value to `uint8` gives a byte, and a value that fits a byte is unchanged |
| `Disks.RoundedPercent` | disk-tool.go:158 | the integer quotient in `Percentage` is in [0,100] and within half a unit of `100*used/size` |
| `Disks.MakeDisk` | disk-tool.go:145-160 | `used + available == size` when `available <= size`; otherwise `used` wraps to `size + 2^64 - available`; the percentage bound and rounding; the escaped mount (the size and free space as products of the block counts are stated in `NoWrap`) |
| `Disks.Snapshot` | disk-tool.go:144-161 | one disk per watchlist entry, in watchlist order, each built from that entry's file-system figures |
| `Disks.SnapshotAppend` | disk-tool.go:144-161 | the snapshot of two pieces of a watchlist is the two snapshots in turn |
| `Disks.SnapshotSnoc` | disk-tool.go:144-161 | a mount added at the end of the watchlist adds its disk at the end of the snapshot |
| `Disks.SnapshotBalanced` | disk-tool.go:150-158 | if the free blocks are at most the blocks and the size fits in 64 bits, the disk's size is blocks × block size, its free space is free blocks × block size, `used + available == size`, and its percentage is at most 100 |
| `Disks.NoWrap` | disk-tool.go:150-156 | without wrap-around, size and free space are the exact products of the block counts and the block size, and the free space is at most the size |
| `Disks.FindDisk` | disk-tool.go:52-53 | finds nothing if and only if no disk has the name; otherwise finds the first disk with that name |
| `Disks.ResolveDisk` | disk-tool.go:50-61 | the found disk is the first disk whose mount is the un-escaped name; nothing is found if and only if no disk has it; a disk with no `@` in its mount is always found through its own escaped name |
| `LogStore.EarliestAfter` | disk-tool.go:119-121 | returns no row if and only if no row is later than the start; otherwise a stored row later than the start, with no later-than-start row earlier |
| `LogStore.MaxTime` | disk-tool.go:171 | returns none if and only if the table is empty; otherwise a stored time that no row exceeds |
| `LogStore.RowsOf` | disk-tool.go:68 | exactly the stored rows of the given mount, each as many times as it is stored; no row of another mount |
| `LogStore.WiderWindowOlderSample` | disk-tool.go:110-121 | a window that starts earlier finds a sample whenever a later-starting one does, and that sample is no later |
| `LogStore.LogTable.Open` | disk-tool.go:95 | the opened table holds the rows already in the database file |
| `LogStore.LogTable.Insert` | disk-tool.go:201 | an insert appends exactly its row and changes no existing row |
| `Trend.WindowChange` | disk-tool.go:119-133 | `ERROR` if and only if there is no sample; otherwise the signed amount shown equals current free minus past free, with no underflow; the flag is true if and only if free space grew; an unchanged or shrunk disk is shown with a minus sign (so no change shows `-0`) |
| `Trend.GetStatsInfo` | disk-tool.go:107-138 | exactly three changes: 30 days (now−2592000), then 7 days (now−604800), then 1 day (now−86400); each is the change against the earliest row after that start |
| `Trend.OtherMountSample` | disk-tool.go:119 | the sample for `/a` can be a row of `/b`, and the month change is then taken against `/b`'s free space |
| `Trend.SampleExample` | disk-tool.go:119-131 | with rows at t=0 and t=1000, the sample after t=500 is the t=1000 row; 700 bytes free now against 800 shows `-100`, not positive |
| `Sampler.InitialSleep` | disk-tool.go:175-191 | no sleep without a previous log; a last log younger than the interval gives a first log at last + interval; when the last log is not in the future, the sleep is in (0, interval] and lands a whole number of intervals after the last log |
| `Sampler.FirstBoundaryAfterNow` | disk-tool.go:186-191 | no aligned time falls strictly between now and the first log |
| `Sampler.AlignmentExample` | disk-tool.go:181-185 | with a 900-second interval and a last log 300 seconds ago, the first log comes after 600 seconds |
| `Sampler.TickRows` | disk-tool.go:200-203 | one row per disk, in snapshot order: the disk's mount, the log time and the disk's free space |
| `Sampler.TickRowsAppend` | disk-tool.go:200-203 | the rows of two pieces of a snapshot are the two row lists in turn |
| `Sampler.TickSetsLastLogTime` | disk-tool.go:171 | after a tick of a non-empty snapshot at a time no earlier than any stored row, `MAX(time)` is that tick's time |
| `Sampler.TickFeedsTrend` | disk-tool.go:119-121 | after a tick of a non-empty snapshot, every window that starts before the tick finds a sample |
| `Sampler.DiskTool.constructor` | disk-tool.go:42-43 | the program starts with the given database and an empty snapshot |
| `Sampler.DiskTool.UpdateDiskInfo` | disk-tool.go:141-163 | the whole snapshot is replaced by the watchlist's new snapshot |
| `Sampler.DiskTool.Tick` | disk-tool.go:196-204 | the snapshot is refreshed, then exactly one row per disk is appended after the existing rows |
| `Sampler.DiskTool.LogSnapshot` | disk-tool.go:200-203 | exactly one row per disk of the current snapshot is appended, in snapshot order; existing rows are unchanged |
| `Sampler.DiskTool.StartupSleep` | disk-tool.go:170-191 | the sleep is `InitialSleep` of the table's `MAX(time)`: empty table gives no sleep; otherwise, with no row in the future, the sleep is in (0, interval] and lands a whole number of intervals after a logged time |
| `Sampler.DiskTool.Info` | disk-tool.go:50-62 | bad request if and only if no disk has the un-escaped name; otherwise the first disk with that name and its three changes against the table; a disk with no `@` is always reachable |
| `Sampler.DiskTool.Data` | disk-tool.go:64-85 | bad request if and only if no disk has the un-escaped name; otherwise exactly the logged rows of that mount, each as many times as it is logged |

## Left out

- The HTTP server, templates, static files and the JSON text of the data page
  are not modelled. They only present the data.
- `syscall.Statfs` is a parameter of the model: a function from mount to
  block counts. A mount it cannot read is modelled as reporting zeroes.
- The database engine is replaced by a sequence of rows. `CREATE TABLE IF NOT
  EXISTS` is folded into `LogTable.Open`, which keeps the existing rows.
- SQL statements are built by pasting strings together. A mount containing
  `'` would give a malformed or different statement. The model treats every
  insert and query as well-formed.
- Database errors other than "no row" also show as `ERROR` on the info page.
  The model has only the "no row" case.
- `LogStore.EarliestAfter`: SQL leaves the order of rows with equal times
  unspecified. The model picks the row stored first.
- `LogStore.RowsOf`: the data query has no `ORDER BY`. The model returns the
  rows in the order they were stored.
- `humanize.IBytes` formatting is not modelled. The model shows byte counts
  as numbers plus a sign.
- `Disks.Percentage` rounds the exact fraction `100*used/size`. The program
  divides in floating point first, so an exact half can round down at any
  size: with used/size = 23/40 the program computes 57.49999999999999 and
  shows 57, where the model gives 58 (29/200 likewise gives 14, not 15). For
  sizes above 2^53, `float64(used)` and `float64(size)` are themselves
  inexact. The model's percentage can therefore differ from the program's
  by one.
- `Disks.ToUint8`: Go leaves the conversion of an out-of-range float to a
  byte to the platform. The model follows amd64, where the value goes
  through a signed 32-bit conversion: below 2^31 it keeps the low byte, and
  from 2^31 on (possible only when free space exceeds size) it gives 0. Size
  0 gives a non-finite quotient, and the model gives 0 as amd64 does. Other
  platforms may give other bytes in these cases.
- `Sampler.InitialSleep` requires a positive interval. The program always
  passes 900. Go's `math.Mod` of a negative interval is not modelled.
- Time is whole seconds from one clock reading `now`. The source reads the
  clock more than once and compares durations in nanoseconds. Rows are
  stamped by the database's own clock, which the model also takes as `now`.
  64-bit overflow of times is not modelled.
- Goroutines and `time.Sleep` are not modelled. The endless logging loop is
  one `Tick` with the sleep as a computed duration. The race between a tick's
  goroutine and the page handlers over `diskInfo` is not modelled.
- `checkErr` panics and reading `watchlist.txt` from disk are not modelled.
  `GetWatchList` starts from the file's text; invalid UTF-8 is not modelled.
- static/js/diskGraph.js (the browser chart) is not part of this model.

/**
 * Disk snapshots: for each watched mount, its size, free space, used space
 * and percentage used, computed from the block counts the file system
 * reports. All byte counts are 64-bit unsigned integers and the
 * multiplications and the subtraction wrap around as they do in Go.
 */
module Disks {
  import opened Mounts
  import opened Optional

  const U64: int := 0x1_0000_0000_0000_0000

  newtype u64 = x: int | 0 <= x < 0x1_0000_0000_0000_0000

  /** uint64(x) for a value of any integer type: two's-complement truncation. */
  function Wrap(x: int): u64 {
    (x % U64) as u64
  }

  /** How uint64() reads a value: a value in range is kept, and a negative
      value down to -2^64 reads as itself plus 2^64. */
  lemma WrapReads(x: int)
    ensures 0 <= x < U64 ==> Wrap(x) as int == x
    ensures -U64 <= x < 0 ==> Wrap(x) as int == x + U64
  {
  }

  /** The fields of syscall.Statfs_t that are read: total blocks, blocks free
      to unprivileged users, and the block size (a signed field). */
  datatype StatFs = StatFs(blocks: u64, bavail: u64, bsize: int)

  /** One watched disk as the pages show it; the human-readable byte strings
      are not part of the model. */
  datatype Disk = Disk(
    mount: string,
    mountEscaped: string,
    size: u64,
    available: u64,
    used: u64,
    percentage: nat)

  /** Percent used, rounded to the nearest integer with halves rounded up
      (math.Round on a non-negative value), then converted to a byte. A disk of
      size 0 gives 0, which is what the float-to-byte conversion of the
      non-finite quotient yields on amd64. */
  function Percentage(used: u64, size: u64): (p: nat)
    ensures p < 256
    ensures size > 0 && used <= size ==>
      p <= 100 && 2 * p * size as int <= 200 * used as int + size as int < 2 * p * size as int + 2 * size as int
  {
    if size == 0 then 0
    else
      var q := (200 * used as int + size as int) / (2 * size as int);
      if used <= size then
        RoundedPercent(used as int, size as int);
        q
      else ToUint8(q)
  }

  /** uint8() of a non-negative rounded float on amd64: the value goes through
      a signed 32-bit conversion, which yields 0x80000000 for 2^31 and above,
      and then keeps its low byte. A value that fits a byte is unchanged. */
  function ToUint8(q: nat): (b: nat)
    ensures b < 256
    ensures q < 256 ==> b == q
  {
    if q < 0x8000_0000 then q % 256 else 0
  }

  /** The quotient in Percentage is the nearest integer to 100 * used / size
      and at most 100 when used <= size. */
  lemma RoundedPercent(used: int, size: int)
    requires 0 <= used <= size && 0 < size
    ensures var q := (200 * used + size) / (2 * size);
      0 <= q <= 100 && 2 * q * size <= 200 * used + size < 2 * q * size + 2 * size
  {
    var n, d := 200 * used + size, 2 * size;
    var q, r := n / d, n % d;
    assert n == d * q + r && 0 <= r < d;
    assert 2 * q * size == d * q;
  }

  /** updateDiskInfo for one mount: size and free space are block counts times
      the block size, used is their difference, all modulo 2^64. */
  function MakeDisk(dir: string, stat: StatFs): (d: Disk)
    ensures d.mount == dir && d.mountEscaped == Escape(dir)
    ensures d.available <= d.size ==> d.used as int + d.available as int == d.size as int
    ensures d.available > d.size ==> d.used as int == d.size as int + U64 - d.available as int
    ensures d.size > 0 && d.available <= d.size ==>
      d.percentage <= 100
      && 2 * d.percentage * d.size as int <= 200 * d.used as int + d.size as int
      && 200 * d.used as int + d.size as int < 2 * d.percentage * d.size as int + 2 * d.size as int
  {
    var bSize := Wrap(stat.bsize);
    var size := Wrap(stat.blocks as int * bSize as int);
    var available := Wrap(stat.bavail as int * bSize as int);
    var used := Wrap(size as int - available as int);
    WrapDifference(size, available);
    Disk(dir, Escape(dir), size, available, used, Percentage(used, size))
  }

  /** uint64 subtraction: exact when it does not go below zero, otherwise
      2^64 more. */
  lemma WrapDifference(a: u64, b: u64)
    ensures b <= a ==> Wrap(a as int - b as int) as int == a as int - b as int
    ensures a < b ==> Wrap(a as int - b as int) as int == a as int - b as int + U64
  {
  }

  /** The snapshot of a watchlist: one disk per entry, in watchlist order. The
      file system is a parameter; for a mount it cannot read it reports
      zeroes, as the untouched Statfs_t of the source does. */
  function Snapshot(watchList: seq<string>, statfs: string -> StatFs): (ds: seq<Disk>)
    ensures |ds| == |watchList|
    ensures forall i :: 0 <= i < |watchList| ==> ds[i] == MakeDisk(watchList[i], statfs(watchList[i]))
  {
    if watchList == [] then []
    else [MakeDisk(watchList[0], statfs(watchList[0]))] + Snapshot(watchList[1..], statfs)
  }

  /** The snapshot of two pieces of a watchlist is the two snapshots in turn. */
  lemma {:induction false} SnapshotAppend(a: seq<string>, b: seq<string>, statfs: string -> StatFs)
    ensures Snapshot(a + b, statfs) == Snapshot(a, statfs) + Snapshot(b, statfs)
  {
    var l, r := Snapshot(a + b, statfs), Snapshot(a, statfs) + Snapshot(b, statfs);
    assert |l| == |r|;
    forall i | 0 <= i < |l| ensures l[i] == r[i] {
      if i < |a| {
        assert (a + b)[i] == a[i];
      } else {
        assert (a + b)[i] == b[i - |a|];
      }
    }
  }

  /** Adding a mount to the end of a watchlist adds its disk to the end of the
      snapshot. */
  lemma SnapshotSnoc(ws: seq<string>, dir: string, statfs: string -> StatFs)
    ensures Snapshot(ws + [dir], statfs) == Snapshot(ws, statfs) + [MakeDisk(dir, statfs(dir))]
  {
    SnapshotAppend(ws, [dir], statfs);
    assert Snapshot([dir], statfs)[0] == MakeDisk(dir, statfs(dir));
  }

  /** Every disk of a snapshot keeps used + available == size whenever the
      file system reports no more free blocks than blocks and the size fits
      in 64 bits, and its percentage is then in [0, 100]. */
  lemma SnapshotBalanced(watchList: seq<string>, statfs: string -> StatFs, i: nat)
    requires i < |watchList|
    requires statfs(watchList[i]).bavail <= statfs(watchList[i]).blocks
    requires statfs(watchList[i]).blocks as int * Wrap(statfs(watchList[i]).bsize) as int < U64
    ensures var d, st := Snapshot(watchList, statfs)[i], statfs(watchList[i]);
      && d.mount == watchList[i]
      && d.size as int == st.blocks as int * Wrap(st.bsize) as int
      && d.available as int == st.bavail as int * Wrap(st.bsize) as int
      && d.used as int + d.available as int == d.size as int
      && d.percentage <= 100
  {
    var st := statfs(watchList[i]);
    NoWrap(watchList[i], st);
  }

  /** Without wrap-around in the size, the size and the free space are the
      exact products of the block counts and the block size, and the free
      space is at most the size. */
  lemma NoWrap(dir: string, st: StatFs)
    requires st.bavail <= st.blocks
    requires st.blocks as int * Wrap(st.bsize) as int < U64
    ensures MakeDisk(dir, st).size as int == st.blocks as int * Wrap(st.bsize) as int
    ensures MakeDisk(dir, st).available as int == st.bavail as int * Wrap(st.bsize) as int
    ensures MakeDisk(dir, st).available <= MakeDisk(dir, st).size
  {
    var b := Wrap(st.bsize) as int;
    var size, avail := st.blocks as int * b, st.bavail as int * b;
    MulMono(st.bavail as int, st.blocks as int, b);
    assert 0 <= avail <= size < U64;
    assert Wrap(size) as int == size;
    assert Wrap(avail) as int == avail;
    var d := MakeDisk(dir, st);
    assert d.size == Wrap(size);
    assert d.available == Wrap(avail);
  }

  lemma MulMono(x: int, y: int, b: int)
    requires 0 <= x <= y && 0 <= b
    ensures x * b <= y * b
  {
    assert y * b - x * b == (y - x) * b;
  }

  /** The first disk of `diskInfo` whose mount is `name`, as the loops of the
      info and data pages find it; None when there is none. */
  method FindDisk(diskInfo: seq<Disk>, name: string) returns (r: Option<Disk>)
    ensures r.None? <==> forall j :: 0 <= j < |diskInfo| ==> diskInfo[j].mount != name
    ensures r.Some? ==> r.value.mount == name
    ensures r.Some? ==>
      exists i :: 0 <= i < |diskInfo| && diskInfo[i] == r.value
        && (forall j :: 0 <= j < i ==> diskInfo[j].mount != name)
  {
    var i := 0;
    while i < |diskInfo|
      invariant 0 <= i <= |diskInfo|
      invariant forall j :: 0 <= j < i ==> diskInfo[j].mount != name
    {
      if diskInfo[i].mount == name {
        return Some(diskInfo[i]);
      }
      i := i + 1;
    }
    return None;
  }

  /** The disk a page request names: the name in the URL is un-escaped and
      looked up. A disk whose mount has no `@` is always found through its
      own escaped name. */
  method ResolveDisk(diskInfo: seq<Disk>, escapedName: string) returns (r: Option<Disk>)
    ensures r.Some? ==> r.value in diskInfo && r.value.mount == Unescape(escapedName)
    ensures r.Some? ==>
      exists i :: 0 <= i < |diskInfo| && diskInfo[i] == r.value
        && (forall j :: 0 <= j < i ==> diskInfo[j].mount != Unescape(escapedName))
    ensures r.None? <==> forall j :: 0 <= j < |diskInfo| ==> diskInfo[j].mount != Unescape(escapedName)
    ensures forall d :: d in diskInfo && '@' !in d.mount && escapedName == Escape(d.mount) ==>
      r.Some? && r.value.mount == d.mount
  {
    r := FindDisk(diskInfo, Unescape(escapedName));
    forall d | d in diskInfo && '@' !in d.mount && escapedName == Escape(d.mount)
      ensures r.Some? && r.value.mount == d.mount
    {
      RoundTrip(d.mount);
      var j :| 0 <= j < |diskInfo| && diskInfo[j] == d;
    }
  }
}

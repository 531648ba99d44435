/** The in-place exchange of RAM areas with their extents (core/dump.c, `switch_memory_area`), chunk
    by chunk through a bounded buffer, as states of memory and disk. */
module DumpSwitch {
  import opened Bytes
  import opened DumpFormat

  const SWITCH_BUF_SIZE: nat := 8 * 1024 * 1024

  /** Where one area and its extent are. */
  datatype Pair = Pair(start: nat, at: nat, size: nat, bufAt: nat)

  ghost predicate Within(p: Pair, ram: seq<byte>, disk: seq<byte>) {
    && p.start + p.size <= |ram| && p.bufAt + SWITCH_BUF_SIZE <= |ram| && p.at + p.size <= |disk|
    && Apart(MemArea(p.start, p.size), MemArea(p.bufAt, SWITCH_BUF_SIZE))
  }

  /** Between two chunks: the first off bytes are exchanged, the rest is as before, and the switch
      buffer may hold anything. */
  ghost predicate Exchanged(p: Pair, ram0: seq<byte>, disk0: seq<byte>, ram: seq<byte>, disk: seq<byte>, off: nat) {
    && off <= p.size && Within(p, ram0, disk0) && |ram| == |ram0|
    && disk == Overwrite(disk0, p.at, ram0[p.start..p.start + off])
    && ram[p.start..p.start + off] == disk0[p.at..p.at + off]
    && (forall i ::
         0 <= i < |ram| && !(p.start <= i < p.start + off) && !(p.bufAt <= i < p.bufAt + SWITCH_BUF_SIZE) ==>
         ram[i] == ram0[i])
  }

  /** A moment inside a chunk of n bytes at off: whether it has been read into the buffer, whether it
      has been written to the disk, and how many of its bytes have been copied to memory. */
  datatype Moment = Moment(off: nat, n: nat, read: bool, written: bool, copied: nat)

  /** Byte k of the memory image, and of the disk image, rebuilt from memory, disk and buffer. */
  function OldRam(m: Moment, p: Pair, ram: seq<byte>, disk: seq<byte>, k: nat): byte
    requires k < p.size && p.start + p.size <= |ram| && p.at + p.size <= |disk|
  {
    if k < m.off || (m.written && k < m.off + m.n) then disk[p.at + k] else ram[p.start + k]
  }

  function OldDisk(m: Moment, p: Pair, ram: seq<byte>, disk: seq<byte>, k: nat): byte
    requires k < p.size && p.start + p.size <= |ram| && p.at + p.size <= |disk|
    requires m.n <= SWITCH_BUF_SIZE && p.bufAt + SWITCH_BUF_SIZE <= |ram|
  {
    if k < m.off + m.copied then ram[p.start + k]
    else if m.read && m.off <= k < m.off + m.n then ram[p.bufAt + k - m.off]
    else disk[p.at + k]
  }

  /** Neither image is lost. */
  ghost predicate Rebuildable(m: Moment, p: Pair, ram0: seq<byte>, disk0: seq<byte>, ram: seq<byte>, disk: seq<byte>) {
    && Within(p, ram0, disk0) && |ram| == |ram0| && |disk| == |disk0|
    && m.n <= SWITCH_BUF_SIZE && m.off + m.n <= p.size && m.copied <= m.n
    && forall k :: 0 <= k < p.size ==>
         OldRam(m, p, ram, disk, k) == ram0[p.start + k] && OldDisk(m, p, ram, disk, k) == disk0[p.at + k]
  }

  // ----- The steps of a chunk -----

  lemma SliceByte(s: seq<byte>, i: nat, t: seq<byte>, j: nat, n: nat, k: nat)
    requires i + n <= |s| && j + n <= |t| && s[i..i + n] == t[j..j + n] && k < n
    ensures s[i + k] == t[j + k]
  {
    assert s[i..i + n][k] == t[j..j + n][k];
  }

  /** Byte k of area and extent between two chunks. */
  lemma BoundaryByte(p: Pair, ram0: seq<byte>, disk0: seq<byte>, ram: seq<byte>, disk: seq<byte>, off: nat, k: nat)
    requires Exchanged(p, ram0, disk0, ram, disk, off) && k < p.size
    ensures |disk| == |disk0|
    ensures k < off ==> ram[p.start + k] == disk0[p.at + k] && disk[p.at + k] == ram0[p.start + k]
    ensures k >= off ==> ram[p.start + k] == ram0[p.start + k] && disk[p.at + k] == disk0[p.at + k]
  {
    hide Overwrite;
    OverwriteBytes(disk0, p.at, ram0[p.start..p.start + off]);
    if k < off { SliceByte(ram, p.start, disk0, p.at, off, k); }
  }

  lemma BoundaryRebuildable(p: Pair, ram0: seq<byte>, disk0: seq<byte>, ram: seq<byte>, disk: seq<byte>, off: nat)
    requires Exchanged(p, ram0, disk0, ram, disk, off)
    ensures Rebuildable(Moment(off, 0, false, false, 0), p, ram0, disk0, ram, disk)
  {
    hide Overwrite;
    var m := Moment(off, 0, false, false, 0);
    forall k | 0 <= k < p.size
      ensures OldRam(m, p, ram, disk, k) == ram0[p.start + k] && OldDisk(m, p, ram, disk, k) == disk0[p.at + k]
    {
      BoundaryByte(p, ram0, disk0, ram, disk, off, k);
    }
  }

  /** The chunk in the buffer, or garbage in the buffer: nothing else has moved. */
  lemma BufferStep(p: Pair, ram0: seq<byte>, disk0: seq<byte>, ram: seq<byte>, disk: seq<byte>, off: nat,
      ram': seq<byte>)
    requires Exchanged(p, ram0, disk0, ram, disk, off) && |ram'| == |ram|
    requires forall i :: 0 <= i < |ram| && !(p.bufAt <= i < p.bufAt + SWITCH_BUF_SIZE) ==> ram'[i] == ram[i]
    ensures Exchanged(p, ram0, disk0, ram', disk, off)
  {
    hide Overwrite;
    assert ram'[p.start..p.start + off] == ram[p.start..p.start + off];
  }

  /** With the chunk in the buffer, whatever is in its place on the disk. */
  lemma ReadRebuildable(p: Pair, ram0: seq<byte>, disk0: seq<byte>, ram: seq<byte>, disk: seq<byte>, off: nat, n: nat,
      disk': seq<byte>)
    requires Exchanged(p, ram0, disk0, ram, disk, off) && n <= SWITCH_BUF_SIZE && off + n <= p.size
    requires ram[p.bufAt..p.bufAt + n] == disk0[p.at + off..p.at + off + n]
    requires |disk'| == |disk|
      && forall i :: 0 <= i < |disk| && (i < p.at + off || p.at + off + n <= i) ==> disk'[i] == disk[i]
    ensures Rebuildable(Moment(off, n, true, false, 0), p, ram0, disk0, ram, disk')
  {
    hide Overwrite;
    var m := Moment(off, n, true, false, 0);
    forall k | 0 <= k < p.size
      ensures OldRam(m, p, ram, disk', k) == ram0[p.start + k] && OldDisk(m, p, ram, disk', k) == disk0[p.at + k]
    {
      BoundaryByte(p, ram0, disk0, ram, disk, off, k);
      if off <= k < off + n { SliceByte(ram, p.bufAt, disk0, p.at + off, n, k - off); }
    }
  }

  /** Byte k during the copy, from what it was on either side before. */
  lemma CopyByte(p: Pair, ram: seq<byte>, disk: seq<byte>, off: nat, n: nat, c: nat, k: nat, r: byte, d: byte)
    requires Within(p, ram, disk) && n <= SWITCH_BUF_SIZE && off + n <= p.size && c <= n && k < p.size
    requires if k < off then ram[p.start + k] == d && disk[p.at + k] == r
      else ram[p.start + k] == r && disk[p.at + k] == d
    requires off <= k < off + n ==> ram[p.bufAt + (k - off)] == d
    ensures var ram', disk' := Overwrite(ram, p.start + off, ram[p.bufAt..p.bufAt + c]),
      Overwrite(disk, p.at + off, ram[p.start + off..p.start + off + n]);
      var m := Moment(off, n, true, true, c);
      OldRam(m, p, ram', disk', k) == r && OldDisk(m, p, ram', disk', k) == d
  {
    hide Overwrite;
    var what, chunk := ram[p.bufAt..p.bufAt + c], ram[p.start + off..p.start + off + n];
    OverwriteByte(ram, p.start + off, what, p.start + k);
    OverwriteByte(disk, p.at + off, chunk, p.at + k);
    if off <= k < off + n {
      OverwriteByte(ram, p.start + off, what, p.bufAt + (k - off));
      assert chunk[k - off] == ram[p.start + k];
      if k < off + c { assert what[k - off] == ram[p.bufAt + (k - off)]; }
    }
  }

  lemma ExchangedShape(p: Pair, ram0: seq<byte>, disk0: seq<byte>, ram: seq<byte>, disk: seq<byte>, off: nat)
    requires Exchanged(p, ram0, disk0, ram, disk, off)
    ensures Within(p, ram0, disk0) && Within(p, ram, disk) && |ram| == |ram0| && |disk| == |disk0| && off <= p.size
  {
  }

  /** After the write, at every byte of the copy. */
  lemma CopyRebuildable(p: Pair, ram0: seq<byte>, disk0: seq<byte>, ram: seq<byte>, disk: seq<byte>, off: nat, n: nat,
      c: nat)
    requires Exchanged(p, ram0, disk0, ram, disk, off) && n <= SWITCH_BUF_SIZE && off + n <= p.size && c <= n
    requires ram[p.bufAt..p.bufAt + n] == disk0[p.at + off..p.at + off + n]
    ensures p.bufAt + n <= |ram| && p.start + p.size <= |ram| && p.at + p.size <= |disk|
    ensures Rebuildable(Moment(off, n, true, true, c), p, ram0, disk0,
                        Overwrite(ram, p.start + off, ram[p.bufAt..p.bufAt + c]),
                        Overwrite(disk, p.at + off, ram[p.start + off..p.start + off + n]))
  {
    hide Overwrite, OldRam, OldDisk, Exchanged;
    ExchangedShape(p, ram0, disk0, ram, disk, off);
    var ram', disk' := Overwrite(ram, p.start + off, ram[p.bufAt..p.bufAt + c]),
      Overwrite(disk, p.at + off, ram[p.start + off..p.start + off + n]);
    var m := Moment(off, n, true, true, c);
    forall k | 0 <= k < p.size
      ensures OldRam(m, p, ram', disk', k) == ram0[p.start + k] && OldDisk(m, p, ram', disk', k) == disk0[p.at + k]
    {
      BoundaryByte(p, ram0, disk0, ram, disk, off, k);
      if off <= k < off + n { SliceByte(ram, p.bufAt, disk0, p.at + off, n, k - off); }
      CopyByte(p, ram, disk, off, n, c, k, ram0[p.start + k], disk0[p.at + k]);
    }
  }

  /** A whole chunk moves the boundary. */
  lemma ChunkStep(p: Pair, ram0: seq<byte>, disk0: seq<byte>, ram: seq<byte>, disk: seq<byte>, off: nat, n: nat)
    requires Exchanged(p, ram0, disk0, ram, disk, off) && n <= SWITCH_BUF_SIZE && off + n <= p.size
    requires ram[p.bufAt..p.bufAt + n] == disk0[p.at + off..p.at + off + n]
    ensures p.at + off + n <= |disk| && p.start + off + n <= |ram| && p.bufAt + n <= |ram|
    ensures Exchanged(p, ram0, disk0, Overwrite(ram, p.start + off, ram[p.bufAt..p.bufAt + n]),
                      Overwrite(disk, p.at + off, ram[p.start + off..p.start + off + n]), off + n)
  {
    hide Overwrite;
    var what, chunk := ram[p.bufAt..p.bufAt + n], ram[p.start + off..p.start + off + n];
    assert chunk == ram0[p.start + off..p.start + off + n];
    Extended(disk0, p.at, ram0, p.start, off, n);
    Appended(ram, p.start, disk0, p.at, off, what);
    OverwriteBytes(ram, p.start + off, what);
  }

  /** Two writes side by side are one. */
  lemma Extended(disk: seq<byte>, at: nat, ram: seq<byte>, start: nat, off: nat, n: nat)
    requires at + off + n <= |disk| && start + off + n <= |ram|
    ensures Overwrite(Overwrite(disk, at, ram[start..start + off]), at + off, ram[start + off..start + off + n])
         == Overwrite(disk, at, ram[start..start + (off + n)])
  {
    Joined(ram, start, off, n);
    OverwriteMore(disk, at, ram[start..start + off], ram[start + off..start + off + n]);
  }

  lemma Appended(ram: seq<byte>, start: nat, disk: seq<byte>, at: nat, off: nat, what: seq<byte>)
    requires start + off + |what| <= |ram| && at + off + |what| <= |disk|
    requires ram[start..start + off] == disk[at..at + off] && what == disk[at + off..at + off + |what|]
    ensures Overwrite(ram, start + off, what)[start..start + (off + |what|)] == disk[at..at + (off + |what|)]
  {
    hide Overwrite;
    OverwriteApart(ram, start + off, what, start, start + off);
    OverwriteHere(ram, start + off, what);
    Joined(Overwrite(ram, start + off, what), start, off, |what|);
    Joined(disk, at, off, |what|);
  }

  lemma Joined(s: seq<byte>, at: nat, off: nat, n: nat)
    requires at + off + n <= |s|
    ensures s[at..at + (off + n)] == s[at..at + off] + s[at + off..at + off + n]
  {
  }

  lemma OverwriteMore(s: seq<byte>, at: nat, a: seq<byte>, b: seq<byte>)
    requires at + |a| + |b| <= |s|
    ensures Overwrite(Overwrite(s, at, a), at + |a|, b) == Overwrite(s, at, a + b)
  {
  }

  // ----- The whole table -----

  /** The first n areas are exchanged with their extents, the others are as before, and so is the rest
      of the disk. */
  ghost predicate Switched(ram0: seq<byte>, disk0: seq<byte>, ram: seq<byte>, disk: seq<byte>, table: seq<MemArea>,
      n: nat)
    requires n <= |table|
  {
    && |ram| == |ram0| && |disk| == |disk0| && InRam(table, |ram|) && Fits(disk, table, |table|)
    && HEADER_BYTES <= |disk| && ByteOf(table, |table|) <= |disk|
    && (forall i ::
         0 <= i < n ==>
         Area(ram, table, i) == Extent(disk0, table, i) && Extent(disk, table, i) == Area(ram0, table, i))
    && (forall i ::
         n <= i < |table| ==>
         Area(ram, table, i) == Area(ram0, table, i) && Extent(disk, table, i) == Extent(disk0, table, i))
    && disk[..HEADER_BYTES] == disk0[..HEADER_BYTES]
    && disk[ByteOf(table, |table|)..] == disk0[ByteOf(table, |table|)..]
  }

  function PairOf(table: seq<MemArea>, i: nat, bufAt: nat): Pair
    requires i < |table|
  {
    Pair(table[i].start, ByteOf(table, i), table[i].size, bufAt)
  }

  lemma SwitchedNone(ram: seq<byte>, disk: seq<byte>, table: seq<MemArea>)
    requires InRam(table, |ram|) && Fits(disk, table, |table|) && HEADER_BYTES <= |disk|
    ensures Switched(ram, disk, ram, disk, table, 0)
  {
    if |table| > 0 {
      NextExtent(table, |table| - 1);
      assert ExtentFits(|disk|, table, |table| - 1);
    }
  }

  /** Area i exchanged with its extent, and nothing else in any other area or extent. */
  ghost predicate OnlyThis(ram0: seq<byte>, disk0: seq<byte>, ram: seq<byte>, disk: seq<byte>, table: seq<MemArea>,
      i: nat)
    requires i < |table|
  {
    && |ram| == |ram0| && |disk| == |disk0| && InRam(table, |ram|) && Fits(disk, table, |table|)
    && (forall j ::
         0 <= j < |table| && j != i ==>
         Area(ram, table, j) == Area(ram0, table, j) && Extent(disk, table, j) == Extent(disk0, table, j))
    && HEADER_BYTES <= |disk| && ByteOf(table, |table|) <= |disk|
    && disk[..HEADER_BYTES] == disk0[..HEADER_BYTES]
    && disk[ByteOf(table, |table|)..] == disk0[ByteOf(table, |table|)..]
  }

  lemma SwitchStep(ram0: seq<byte>, disk0: seq<byte>, ram1: seq<byte>, disk1: seq<byte>, ram: seq<byte>,
      disk: seq<byte>,
      table: seq<MemArea>, i: nat, bufAt: nat)
    requires i < |table| && Switched(ram0, disk0, ram1, disk1, table, i)
    requires OnlyThis(ram1, disk1, ram, disk, table, i)
    requires Exchanged(PairOf(table, i, bufAt), ram1, disk1, ram, disk, table[i].size)
    ensures Switched(ram0, disk0, ram, disk, table, i + 1)
  {
    hide Exchanged, ByteOf;
    ThisExchanged(ram1, disk1, ram, disk, table, i, bufAt);
  }

  lemma ThisExchanged(ram0: seq<byte>, disk0: seq<byte>, ram: seq<byte>, disk: seq<byte>, table: seq<MemArea>, i: nat,
      bufAt: nat)
    requires i < |table| && Exchanged(PairOf(table, i, bufAt), ram0, disk0, ram, disk, table[i].size)
    ensures table[i].start + table[i].size <= |ram| == |ram0| && ByteOf(table, i) + table[i].size <= |disk| == |disk0|
    ensures Area(ram, table, i) == Extent(disk0, table, i) && Extent(disk, table, i) == Area(ram0, table, i)
  {
    hide ByteOf, Overwrite;
    OverwriteHere(disk0, ByteOf(table, i), ram0[table[i].start..table[i].start + table[i].size]);
  }

  /** Header and extents make up the disk as far as the last extent. */
  lemma {:induction false} SameExtents(disk0: seq<byte>, disk: seq<byte>, table: seq<MemArea>, n: nat)
    requires n <= |table| && Fits(disk0, table, n) && |disk| == |disk0| && HEADER_BYTES <= |disk|
      && ByteOf(table, n) <= |disk|
    requires disk[..HEADER_BYTES] == disk0[..HEADER_BYTES]
    requires forall i :: 0 <= i < n ==> Extent(disk, table, i) == Extent(disk0, table, i)
    ensures disk[..ByteOf(table, n)] == disk0[..ByteOf(table, n)]
  {
    hide ByteOf;
    if n > 0 {
      NextExtent(table, n - 1);
      assert Fits(disk0, table, n - 1);
      SameExtents(disk0, disk, table, n - 1);
      assert Extent(disk, table, n - 1) == Extent(disk0, table, n - 1);
      SameMore(disk0, disk, ByteOf(table, n - 1), ByteOf(table, n));
    } else {
      FirstExtent(table);
    }
  }

  lemma FirstExtent(table: seq<MemArea>)
    ensures ByteOf(table, 0) == HEADER_BYTES
  {
  }

  lemma SameMore<T>(s: seq<T>, t: seq<T>, i: nat, j: nat)
    requires i <= j <= |s| == |t| && s[..i] == t[..i] && s[i..j] == t[i..j]
    ensures s[..j] == t[..j]
  {
    assert s[..j] == s[..i] + s[i..j] && t[..j] == t[..i] + t[i..j];
  }

  /** Switching twice gives both images, and the whole disk, back. */
  lemma TwiceIsIdentity(ram0: seq<byte>, disk0: seq<byte>, ram1: seq<byte>, disk1: seq<byte>, ram2: seq<byte>,
      disk2: seq<byte>, table: seq<MemArea>)
    requires Switched(ram0, disk0, ram1, disk1, table, |table|) && Switched(ram1, disk1, ram2, disk2, table, |table|)
    ensures forall i ::
      0 <= i < |table| ==>
      Area(ram2, table, i) == Area(ram0, table, i) && Extent(disk2, table, i) == Extent(disk0, table, i)
    ensures disk2 == disk0
  {
    ExtentStart(table, |table|);
    hide ByteOf;
    SameExtents(disk0, disk2, table, |table|);
    var b := ByteOf(table, |table|);
    assert disk2 == disk2[..b] + disk2[b..] && disk0 == disk0[..b] + disk0[b..];
  }
}

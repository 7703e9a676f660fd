/**
 Block allocation, the inode cache, the block map and byte-level file access
 (kernel/fs/fs.c) on top of the buffer cache.
 */
module Fs {
  import opened Layout
  import opened DiskModel
  import opened Bio
  import opened Virtio

  /** struct inode; the fields copied from disk are `di`. */
  datatype Inode = Inode(dev: nat, inum: nat, ref: nat, valid: bool, di: Dinode)

  /** m has a clear bit iff it is not 0xff. */
  lemma ByteHasRoom(m: byte)
    ensures m != 0xff <==> exists k :: 0 <= k < 8 && !BitOf(m, k)
  {
    Pow2Of8();
    if m == 0xff {
      forall k | 0 <= k < 8
        ensures BitOf(m, k)
      {
        FullByteBit(8, k);
      }
    } else {
      var k := NotFullByte(m, 8);
    }
  }

  lemma BitIndex(b: nat, bi: nat, k: nat)
    requires b % 8192 == 0 && bi < 1024 && k < 8
    ensures var x := b + bi * 8 + k;
      x / 8192 == b / 8192 && x % 8192 == bi * 8 + k && x % 8192 / 8 == bi && x % 8192 % 8 == k
  {
    var q := b / 8192;
    assert b == 8192 * q && 0 <= bi * 8 + k < 8192;
  }

  /** Marking one bit of a bitmap block is marking that block number, in the last byte beyond the size too. */
  lemma StoreBit(sb: SuperBlock, disk: Disk, b: nat, bi: nat, k: nat, data: Block)
    requires GoodSb(sb, |disk|) && b % 8192 == 0 && bi < 1024 && k < 8 && b + bi * 8 < sb.size
    requires data == disk[sb.bmapstart as int + b / 8192]
    ensures (b + bi * 8 + k) / 8192 == b / 8192 && sb.bmapstart as int + b / 8192 < Nmeta(sb)
    ensures BitAt(sb, disk, b + bi * 8 + k) == BitOf(data[bi], k)
    ensures SetBitOf(data[bi], k) < 256
    ensures MarkUsed(sb, disk, b + bi * 8 + k) ==
      disk[sb.bmapstart as int + b / 8192 := data[bi := SetBitOf(data[bi], k)]]
  {
    BitIndex(b, bi, k);
    Pow2Of8();
    SetBitOfBound(data[bi], k, 8);
  }

  // ---------------------------------------------------------------- what balloc can return

  /** The end of balloc's scan: of each byte only the first bit is compared with the size. */
  function ScanEnd(size: nat): (r: nat)
    ensures r % 8 == 0 && size <= r < size + 8
  {
    (size + 7) / 8 * 8
  }

  /** A byte is scanned entirely or not at all. */
  lemma WholeByte(size: nat, b: nat, bi: nat)
    requires b % 8192 == 0
    ensures b + bi * 8 < size ==> b + bi * 8 + 8 <= ScanEnd(size)
    ensures b + bi * 8 >= size ==> b + bi * 8 >= ScanEnd(size)
  {
    var q := b / 8192;
    var byte := 1024 * q + bi;
    var last := (size + 7) / 8;
    assert b + bi * 8 == 8 * byte && ScanEnd(size) == 8 * last;
  }

  /**
   What balloc comes to: a zeroed block; the bit of a block that the device does not have,
   so that the driver panics when the block is to be zeroed; or balloc's own panic.
   */
  datatype Allocation = Got(block: u32) | Absent(block: u32) | OutOfBlocks

  /** The lowest clear bit the scan meets. */
  ghost predicate Lowest(sb: SuperBlock, disk: Disk, x: nat)
  {
    x < ScanEnd(sb.size) && !BitAt(sb, disk, x) && forall y :: 0 <= y < x ==> BitAt(sb, disk, y)
  }

  /** Every block of the disk is taken, but a bit of the last byte behind them is clear. */
  ghost predicate OnlyBeyond(sb: SuperBlock, disk: Disk)
  {
    FreeBlocks(sb, disk) == {} && exists x :: sb.size <= x < ScanEnd(sb.size) && !BitAt(sb, disk, x)
  }

  /** With a free block the scan ends at the lowest one, whatever the size. */
  lemma LowestIsFree(sb: SuperBlock, disk: Disk, x: nat)
    requires Lowest(sb, disk, x)
    ensures x in FreeBlocks(sb, disk) <==> FreeBlocks(sb, disk) != {}
    ensures x in FreeBlocks(sb, disk) <==> x < sb.size
    ensures x >= sb.size <==> OnlyBeyond(sb, disk)
  {
    if FreeBlocks(sb, disk) != {} {
      var y := SomeFree(sb, disk);
      assert x <= y;
    }
  }

  /** A size that is a multiple of 8 leaves no bit beyond the disk to be found. */
  lemma NoneBeyond(sb: SuperBlock, disk: Disk)
    requires sb.size % 8 == 0
    ensures ScanEnd(sb.size) == sb.size && !OnlyBeyond(sb, disk)
  {}

  /** bfree's effect on the disk. */
  ghost function FreeDisk(sb: SuperBlock, disk: Disk, b: nat): (r: Disk)
    requires sb.bmapstart as int + b / 8192 < |disk|
    ensures |r| == |disk|
  {
    disk[sb.bmapstart as int + b / 8192 := ClearBit(disk[sb.bmapstart as int + b / 8192], b % 8192)]
  }

  /** bfree undoes balloc: the bitmap is what it was, and only the zeroed block itself may differ. */
  lemma FreeUndoesAlloc(sb: SuperBlock, disk: Disk, b: nat)
    requires GoodSb(sb, |disk|) && MetaBits(sb, disk) && Takeable(sb, disk, b)
    ensures sb.bmapstart as int + b / 8192 < |disk|
    ensures FreeDisk(sb, AllocDisk(sb, disk, b), b) == disk[b := ZeroBlock()]
  {
    var at := sb.bmapstart as int + b / 8192;
    assert at < Nmeta(sb) <= b;
    ClearBitSetBit(disk[at], b % 8192);
    assert disk[at := SetBit(disk[at], b % 8192)][b := ZeroBlock()][at := disk[at]] == disk[b := ZeroBlock()];
  }

  /** The byte and the mask bfree computes are those of bit b of the bitmap. */
  lemma BitToClear(data: Block, b: nat)
    ensures ClearBitOf(data[b % 8192 / 8], b % 8) < 256 && (Bit(data, b % 8192) <==> BitOf(data[b % 8192 / 8], b % 8))
    ensures ClearBit(data, b % 8192) == data[b % 8192 / 8 := ClearBitOf(data[b % 8192 / 8], b % 8)]
  {
    var q, r := b / 8192, b % 8192;
    assert b == 8 * (1024 * q) + r && r % 8 == b % 8;
    Pow2Of8();
    SetBitOfBound(data[r / 8], b % 8, 8);
  }

  /** Freeing one block changes no other block's bit. */
  lemma FreeBits(sb: SuperBlock, disk: Disk, b: nat, x: nat)
    requires GoodSb(sb, |disk|) && b < sb.size && x < sb.size
    ensures sb.bmapstart as int + b / 8192 < |disk|
    ensures BitAt(sb, FreeDisk(sb, disk, b), x) <==> x != b && BitAt(sb, disk, x)
  {
    assert sb.bmapstart as int + b / 8192 < Nmeta(sb);
    if x / 8192 == b / 8192 {
      ClearBitBit(disk[sb.bmapstart as int + b / 8192], b % 8192, x % 8192);
    }
  }

  /** The lowest clear bit of byte bi is the lowest clear bit from block b + 8*bi on. */
  lemma FoundBit(sb: SuperBlock, disk: Disk, b: nat, bi: nat, k: nat, data: Block)
    requires GoodSb(sb, |disk|) && b % 8192 == 0 && bi < 1024 && k < 8 && b + bi * 8 < sb.size
    requires sb.bmapstart as int + b / 8192 < |disk| && data == disk[sb.bmapstart as int + b / 8192]
    requires !BitOf(data[bi], k) && forall j :: 0 <= j < k ==> BitOf(data[bi], j)
    requires forall x :: 0 <= x < b + bi * 8 ==> BitAt(sb, disk, x)
    ensures Lowest(sb, disk, b + bi * 8 + k)
  {
    WholeByte(sb.size, b, bi);
    StoreBit(sb, disk, b, bi, k, data);
    forall x | b + bi * 8 <= x < b + bi * 8 + k
      ensures BitAt(sb, disk, x)
    {
      StoreBit(sb, disk, b, bi, x - b - bi * 8, data);
    }
  }

  // ---------------------------------------------------------------- inode blocks

  ghost function PutInode(sb: SuperBlock, disk: Disk, inum: nat, d: Dinode): (r: Disk)
    requires sb.inodestart as int + inum / 16 < |disk| && |d.addrs| == 13
    ensures |r| == |disk|
  {
    var x := sb.inodestart as int + inum / 16;
    disk[x := PutDinode(disk[x], inum % 16, d)]
  }

  /** The block and the place in it that iupdate, ialloc and mkfs write. */
  lemma PutInodeIs(sb: SuperBlock, disk: Disk, inum: nat, d: Dinode)
    requires sb.inodestart as int + inum / 16 < |disk| && |d.addrs| == 13
    ensures var x := sb.inodestart as int + inum / 16;
      PutInode(sb, disk, inum, d) == disk[x := Splice(disk[x], 64 * (inum % 16), EncDinode(d))]
  {}

  /** memset and the type: the dinode ialloc stores. */
  function EmptyDinode(kind: u16): (d: Dinode)
    ensures |d.addrs| == 13 && d == ZeroDinode().(kind := kind) && d.kind == kind && d.size == 0
    ensures d.addrs == ZeroDinode().addrs
  {
    ZeroDinode().(kind := kind)
  }

  lemma PutInodeTable(sb: SuperBlock, disk: Disk, inum: nat, d: Dinode, j: nat)
    requires GoodSb(sb, |disk|) && inum < sb.ninodes && j < sb.ninodes && |d.addrs| == 13
    ensures sb.inodestart as int + inum / 16 < sb.bmapstart && sb.inodestart as int + j / 16 < sb.bmapstart <= |disk|
    ensures DinodeAt(sb, PutInode(sb, disk, inum, d), j) == if j == inum then d else DinodeAt(sb, disk, j)
  {
    if j / 16 == inum / 16 {
      PutGetDinode(disk[sb.inodestart as int + inum / 16], inum % 16, d, j % 16);
    }
  }

  /** Rewriting a dinode touches no bitmap and no data block. */
  lemma PutInodeKeeps(sb: SuperBlock, disk: Disk, ino: seq<Dinode>, inum: nat, d: Dinode)
    requires FsInv(sb, disk, ino) && inum < sb.ninodes && |d.addrs| == 13
    ensures sb.inodestart as int + inum / 16 < sb.bmapstart
    ensures var disk' := PutInode(sb, disk, inum, d);
      FsInv(sb, disk', ino) && SameFiles(disk, disk', ino, -1) && FreeBlocks(sb, disk') == FreeBlocks(sb, disk)
  {
    var disk' := PutInode(sb, disk, inum, d);
    forall b | 0 <= b < sb.size
      ensures BitAt(sb, disk', b) == BitAt(sb, disk, b)
    {}
    forall k | Live(ino, k)
      ensures KeepsBlocks(disk, disk', ino[k])
    {
      assert InodeInv(sb, disk, ino[k]);
    }
    KeptInv(sb, disk, disk', ino);
    KeptFiles(sb, disk, disk', ino, -1);
  }

  /** An inode without blocks joins the file system without touching anything else. */
  lemma NewInode(sb: SuperBlock, disk: Disk, ino: seq<Dinode>, inum: nat, d: Dinode)
    requires FsInv(sb, disk, ino) && 1 <= inum < sb.ninodes && ino[inum].kind == 0
    requires d.kind != 0 && d.size == 0 && d.addrs == ZeroDinode().addrs
    ensures FsInv(sb, disk, ino[inum := d])
  {
    var ino' := ino[inum := d];
    forall i | 0 <= i <= 268
      ensures Ptr(disk, d, i) == 0 && !Mapped(d, i)
    {}
    forall k | Live(ino', k)
      ensures InodeInv(sb, disk, ino'[k])
    {
      assert k != inum ==> Live(ino, k);
    }
    forall k, i, k', i' | Uses(ino', k, i) && Uses(ino', k', i') && Ptr(disk, ino'[k], i) == Ptr(disk, ino'[k'], i')
      ensures k == k' && i == i'
    {
      assert k != inum && k' != inum;
      assert Uses(ino, k, i) && Uses(ino, k', i');
    }
  }

  // ---------------------------------------------------------------- the inode cache

  /**
   Live cache entries name distinct allocated inodes; a loaded entry equals the
   inode table.
   */
  ghost predicate IcacheOk(icache: seq<Inode>, ino: seq<Dinode>)
  {
    |icache| == 50 &&
    (forall s :: 0 <= s < 50 && icache[s].ref > 0 ==> icache[s].dev == ROOTDEV && Live(ino, icache[s].inum)) &&
    (forall s :: 0 <= s < 50 && icache[s].valid ==> icache[s].ref > 0 && icache[s].di == ino[icache[s].inum]) &&
    (forall s, t :: 0 <= s < t < 50 && icache[s].ref > 0 && icache[t].ref > 0 ==> icache[s].inum != icache[t].inum)
  }

  /** The reference counts of the cache entries. */
  function IRefs(icache: seq<Inode>): (r: seq<nat>)
    ensures |r| == |icache| && forall s :: 0 <= s < |r| ==> r[s] == icache[s].ref
  {
    seq(|icache|, s requires 0 <= s < |icache| => icache[s].ref)
  }

  /** Some entry in use is that of inode k. */
  predicate Cached(icache: seq<Inode>, k: nat)
  {
    exists s :: 0 <= s < |icache| && icache[s].ref > 0 && icache[s].inum == k
  }

  /** iget of inode k finds its entry or an unused one. */
  predicate CanGet(icache: seq<Inode>, k: nat)
  {
    Cached(icache, k) || Spare(IRefs(icache))
  }

  /** An entry is unused while one reference to inode k is held besides those of the cache. */
  predicate SpareBeside(icache: seq<Inode>, k: nat)
  {
    if Cached(icache, k) then Spare(IRefs(icache)) else Spare2(IRefs(icache))
  }

  /** iget of inode n cannot run out of entries while one more reference to inode k is held. */
  predicate CanStep(icache: seq<Inode>, k: nat, n: nat)
  {
    Cached(icache, n) || n == k || SpareBeside(icache, k)
  }

  /** Entries in use in `a` name the same inode in `b`. */
  ghost predicate SameNames(a: seq<Inode>, b: seq<Inode>)
  {
    |a| == |b| &&
    forall s :: 0 <= s < |a| && a[s].ref > 0 ==>
      b[s].inum == a[s].inum && b[s].dev == a[s].dev && (a[s].valid && b[s].ref > 0 ==> b[s].valid)
  }

  lemma IcacheLength(icache: seq<Inode>, ino: seq<Dinode>)
    requires IcacheOk(icache, ino)
    ensures |icache| == 50
  {}

  lemma IcacheDevs(icache: seq<Inode>, ino: seq<Dinode>)
    requires IcacheOk(icache, ino)
    ensures |icache| == 50 && forall s :: 0 <= s < 50 && icache[s].ref > 0 ==> icache[s].dev == ROOTDEV
  {}

  /** One reference more to an entry in use. */
  lemma AddEntryRef(icache: seq<Inode>, ino: seq<Dinode>, ip: nat)
    requires IcacheOk(icache, ino) && ip < 50 && icache[ip].ref > 0 && |icache| == 50
    ensures var ic := icache[ip := icache[ip].(ref := icache[ip].ref + 1)];
      IcacheOk(ic, ino) && SameNames(icache, ic) && IRefs(ic) == IRefs(icache)[ip := IRefs(icache)[ip] + 1]
  {}

  /** An unused entry taken for an inode that has none. */
  lemma NewEntry(icache: seq<Inode>, ino: seq<Dinode>, ip: nat, inum: nat)
    requires IcacheOk(icache, ino) && ip < 50 && |icache| == 50 && icache[ip].ref == 0 && Live(ino, inum)
    requires forall t :: 0 <= t < 50 ==> !(icache[t].ref > 0 && icache[t].inum == inum)
    ensures var ic := icache[ip := icache[ip].(dev := ROOTDEV, inum := inum, ref := 1, valid := false)];
      IcacheOk(ic, ino) && SameNames(icache, ic) && IRefs(ic) == IRefs(icache)[ip := IRefs(icache)[ip] + 1]
  {}

  lemma SomeEntry(icache: seq<Inode>, inum: nat)
    requires CanGet(icache, inum) && forall t :: 0 <= t < |icache| ==> !(icache[t].ref > 0 && icache[t].inum == inum)
    ensures exists t :: 0 <= t < |icache| && icache[t].ref == 0
  {
    var z :| 0 <= z < |IRefs(icache)| && IRefs(icache)[z] == 0;
    assert icache[z].ref == 0;
  }

  /** One reference less, with the entry emptied when none is left. */
  lemma DropEntryRef(icache: seq<Inode>, ino: seq<Dinode>, ip: nat, e: Inode)
    requires IcacheOk(icache, ino) && ip < 50 && icache[ip].ref > 0 && |icache| == 50
    requires e.(ref := 0, valid := false) == icache[ip].(ref := 0, valid := false) && e.ref == icache[ip].ref - 1
    requires e.valid == (icache[ip].valid && e.ref > 0)
    ensures IcacheOk(icache[ip := e], ino) && SameNames(icache, icache[ip := e])
    ensures IRefs(icache[ip := e]) == IRefs(icache)[ip := IRefs(icache)[ip] - 1]
  {}

  /** Rewriting dinode `inum`, when all others are already on disk. */
  lemma PutInodeOnDisk(sb: SuperBlock, disk: Disk, ino: seq<Dinode>, inum: nat, d: Dinode)
    requires GoodSb(sb, |disk|) && |ino| == sb.ninodes && inum < |ino| && |d.addrs| == 13 && OnDisk(sb, disk, ino, inum)
    ensures sb.inodestart as int + inum / 16 < sb.bmapstart
    ensures OnDisk(sb, PutInode(sb, disk, inum, d), ino[inum := d], -1)
    ensures OnDisk(sb, PutInode(sb, disk, inum, d), ino[inum := d], inum)
    ensures DinodeAt(sb, PutInode(sb, disk, inum, d), inum) == d
  {
    PutInodeTable(sb, disk, inum, d, inum);
    hide DinodeAt, PutInode;
    forall j | 0 <= j < |ino|
      ensures DinodeAt(sb, PutInode(sb, disk, inum, d), j) == ino[inum := d][j]
    {
      PutInodeTable(sb, disk, inum, d, j);
    }
  }

  /** Writing an empty dinode over a free one: a new file, and nothing else differs. */
  lemma Claimed(sb: SuperBlock, disk: Disk, ino: seq<Dinode>, inum: nat, d: Dinode)
    requires FsInv(sb, disk, ino) && OnDisk(sb, disk, ino, -1) && 1 <= inum < |ino| && ino[inum].kind == 0
    requires d.kind != 0 && d.size == 0 && d.addrs == ZeroDinode().addrs
    ensures sb.inodestart as int + inum / 16 < sb.bmapstart <= |disk|
    ensures var disk' := PutInode(sb, disk, inum, d);
      FsInv(sb, disk', ino[inum := d]) && OnDisk(sb, disk', ino[inum := d], -1) &&
      SameFiles(disk, disk', ino, -1) && FreeBlocks(sb, disk') == FreeBlocks(sb, disk)
  {
    SuperGood(sb, disk, ino);
    hide InodesInv, Exclusive, MetaBits, FreeBlocks, SameFiles, PutInode, DinodeAt;
    PutInodeKeeps(sb, disk, ino, inum, d);
    PutInodeOnDisk(sb, disk, ino, inum, d);
    NewInode(sb, PutInode(sb, disk, inum, d), ino, inum, d);
  }

  lemma AddrBound(sb: SuperBlock, disk: Disk, d: Dinode)
    requires InodeInv(sb, disk, d) && sb.size > 0
    ensures d.addrs[12] < sb.size
  {
    assert Ptr(disk, d, 268) == d.addrs[12];
  }

  lemma SuperGood(sb: SuperBlock, disk: Disk, ino: seq<Dinode>)
    requires FsInv(sb, disk, ino)
    ensures GoodSb(sb, |disk|) && |ino| == sb.ninodes
  {}

  /** Everything of an inode but its size and block numbers. */
  ghost function Attrs(d: Dinode): (u16, u16, u16, u16)
  {
    (d.kind, d.major, d.minor, d.nlink)
  }

  lemma BmapSize(sb: SuperBlock, disk: Disk, d: Dinode, bn: nat, disk': Disk, d': Dinode, p: u32, s: u32)
    requires |d.addrs| == 13 && |d'.addrs| == 13 && bn < 268 && BmapStep(sb, disk, d, bn, disk', d', p)
    ensures d'.size == d.size && Attrs(d') == Attrs(d) && (Ptr(disk, d, bn) != 0 ==> d' == d)
    ensures Ptr(disk', d'.(size := s), bn) == Ptr(disk', d', bn)
  {}

  lemma IcacheAfterWrite(icache: seq<Inode>, ino: seq<Dinode>, ip: nat, d: Dinode)
    requires IcacheOk(icache, ino) && ip < 50 && icache[ip].ref > 0 && icache[ip].valid && d.kind == icache[ip].di.kind
    ensures IcacheOk(icache[ip := icache[ip].(di := d)], ino[icache[ip].inum := d])
  {
    var ino' := ino[icache[ip].inum := d];
    forall k | Live(ino, k)
      ensures Live(ino', k)
    {}
  }

  lemma IcacheAfterClaim(icache: seq<Inode>, ino: seq<Dinode>, inum: nat, d: Dinode)
    requires IcacheOk(icache, ino) && inum < |ino| && ino[inum].kind == 0 && d.kind != 0
    ensures IcacheOk(icache, ino[inum := d])
  {
    forall k | Live(ino, k)
      ensures Live(ino[inum := d], k) && k != inum
    {}
  }

  lemma AllOnDisk(sb: SuperBlock, disk: Disk, ino: seq<Dinode>, k: int)
    requires GoodSb(sb, |disk|) && |ino| == sb.ninodes && 0 <= k < |ino|
    requires OnDisk(sb, disk, ino, k) && DinodeAt(sb, disk, k) == ino[k]
    ensures OnDisk(sb, disk, ino, -1)
  {}

  lemma FinalFiles(a: Disk, b: Disk, c: Disk, ino: seq<Dinode>, k: int, d: Dinode)
    requires Live(ino, k) && d.kind != 0 && |d.addrs| == 13 && d.size <= 274432
    requires forall k :: 0 <= k < |ino| ==> |ino[k].addrs| == 13
    requires SameFiles(a, b, ino, k) && SameFiles(b, c, ino[k := d], -1)
    ensures SameFiles(a, c, ino, k) && Content(c, d) == Content(b, d)
  {
    assert Live(ino[k := d], k) && ino[k := d][k] == d;
    forall j | Live(ino, j) && j != k && ino[j].size <= 274432
      ensures Content(c, ino[j]) == Content(a, ino[j])
    {
      assert Live(ino[k := d], j) && ino[k := d][j] == ino[j];
    }
  }

  /** What bmap needs to know, at or before the end of a file that may grow to ns bytes. */
  lemma BmapReady(sb: SuperBlock, disk: Disk, d: Dinode, d0: Dinode, bn: nat, ns: nat)
    requires InodeInv(sb, disk, d) && sb.size > 0 && bn < 268 && 1024 * bn <= d.size <= ns && 1024 * bn < ns
    requires |d0.addrs| == 13 && d == d0.(size := d.size)
    requires BlocksFor(ns) - BlocksFor(d.size) <= |FreeBlocks(sb, disk)|
    ensures d0.addrs[12] < sb.size && d.size <= 274432
    ensures Ptr(disk, d0, bn) == 0 ==> |FreeBlocks(sb, disk)| >= if bn >= 12 && d0.addrs[12] == 0 then 2 else 1
    ensures Ptr(disk, d, bn) == Ptr(disk, d0, bn) && (ns == d.size ==> Ptr(disk, d, bn) != 0)
  {
    AddrBound(sb, disk, d);
    assert Ptr(disk, d, bn) == Ptr(disk, d0, bn);
    if Ptr(disk, d, bn) == 0 {
      NeedBlocks(sb, disk, d, bn, ns);
    } else {
      assert Mapped(d, bn);
    }
  }

  /** fs.c:455-457, 549-551: up to the end of the block, but no more than what is left. */
  function ChunkLen(at: nat, left: nat): (m: nat)
    requires left > 0
    ensures 0 < m <= left && at % 1024 + m <= 1024
    ensures m == left || (at + m) % 1024 == 0
  {
    if 1024 - at % 1024 > left then left else 1024 - at % 1024
  }

  /**
   From (disk0, ino0) to (disk, ino): x was written at off into file k, no other file and
   no inode block changed, and blocks moved between the free set and file k only.
   */
  ghost predicate Progress(sb: SuperBlock, disk0: Disk, ino0: seq<Dinode>, k: int, disk: Disk, ino: seq<Dinode>,
                           off: nat, x: seq<byte>)
  {
    0 <= k < |ino0| && |ino| == |ino0| &&
    (forall j :: 0 <= j < |ino0| ==> |ino0[j].addrs| == 13) && |ino[k].addrs| == 13 &&
    off <= ino0[k].size <= 274432 && ino[k].size <= 274432 &&
    ino == ino0[k := ino[k]] && Attrs(ino[k]) == Attrs(ino0[k]) &&
    Content(disk, ino[k]) == Written(Content(disk0, ino0[k]), off, x) &&
    SameFiles(disk0, disk, ino0, k) && SameHead(sb, disk0, disk) &&
    |FreeBlocks(sb, disk)| + BlocksFor(ino[k].size) == |FreeBlocks(sb, disk0)| + BlocksFor(ino0[k].size)
  }

  lemma ProgressSize(sb: SuperBlock, disk0: Disk, ino0: seq<Dinode>, k: int, disk: Disk, ino: seq<Dinode>, off: nat,
                     x: seq<byte>)
    requires Progress(sb, disk0, ino0, k, disk, ino, off, x)
    ensures 0 <= k < |ino0| == |ino|
    ensures ino[k].size == if off + |x| <= ino0[k].size then ino0[k].size else off + |x|
    ensures |FreeBlocks(sb, disk)| + BlocksFor(ino[k].size) == |FreeBlocks(sb, disk0)| + BlocksFor(ino0[k].size)
  {
    assert |Content(disk, ino[k])| == ino[k].size;
  }

  lemma ProgressStart(sb: SuperBlock, disk: Disk, ino: seq<Dinode>, k: int, off: nat)
    requires 0 <= k < |ino| && off <= ino[k].size <= 274432 && forall j :: 0 <= j < |ino| ==> |ino[j].addrs| == 13
    ensures Progress(sb, disk, ino, k, disk, ino, off, [])
  {
    SameRefl(sb, disk, ino, k);
  }

  lemma ProgressTrans(sb: SuperBlock, disk0: Disk, ino0: seq<Dinode>, k: int, disk1: Disk, ino1: seq<Dinode>,
                      disk: Disk, ino: seq<Dinode>, off: nat, x: seq<byte>, y: seq<byte>)
    requires Progress(sb, disk0, ino0, k, disk1, ino1, off, x) && Progress(sb, disk1, ino1, k, disk, ino, off + |x|, y)
    ensures Progress(sb, disk0, ino0, k, disk, ino, off, x + y)
  {
    hide Content, SameFiles, SameHead, FreeBlocks;
    WrittenTwice(Content(disk0, ino0[k]), off, x, y);
    SameFilesTrans(disk0, disk1, disk, ino0, k, ino1[k]);
    SameHeadTrans(sb, disk0, disk1, disk);
  }

  /** CanStep and SpareBeside foretell what the cache holds once the reference to k is there. */
  lemma StepForetold(ic0: seq<Inode>, icache: seq<Inode>, ino: seq<Dinode>, ip: nat, n: nat)
    requires IcacheOk(icache, ino) && ip < 50 && NamesKept(IRefs(ic0), ic0, icache)
    requires IRefs(icache) == IRefs(ic0)[ip := IRefs(ic0)[ip] + 1]
    ensures CanGet(icache, n) <==> CanStep(ic0, icache[ip].inum, n)
    ensures Spare(IRefs(icache)) <==> SpareBeside(ic0, icache[ip].inum)
  {
    SpareForetold(ic0, icache, ino, ip);
    var k, refs := icache[ip].inum, IRefs(icache);
    hide IcacheOk, Spare, Spare2, SpareBeside;
    assert forall s :: 0 <= s < 50 ==> refs[s] == icache[s].ref;
    if Cached(icache, n) {
      var s :| 0 <= s < |icache| && icache[s].ref > 0 && icache[s].inum == n;
      assert s != ip ==> IRefs(ic0)[s] == ic0[s].ref > 0;
    }
    if Cached(ic0, n) {
      var s :| 0 <= s < |ic0| && ic0[s].ref > 0 && ic0[s].inum == n;
      assert IRefs(ic0)[s] > 0 && icache[s].inum == n && refs[s] > 0;
    }
    if n == k {
      assert refs[ip] > 0;
    }
  }

  lemma SpareForetold(ic0: seq<Inode>, icache: seq<Inode>, ino: seq<Dinode>, ip: nat)
    requires IcacheOk(icache, ino) && ip < 50 && NamesKept(IRefs(ic0), ic0, icache)
    requires IRefs(icache) == IRefs(ic0)[ip := IRefs(ic0)[ip] + 1]
    ensures Spare(IRefs(icache)) <==> SpareBeside(ic0, icache[ip].inum)
  {
    var k, refs0, refs := icache[ip].inum, IRefs(ic0), IRefs(icache);
    assert forall s :: 0 <= s < 50 ==> refs[s] == icache[s].ref && refs0[s] == ic0[s].ref;
    if refs0[ip] > 0 {
      assert ic0[ip].inum == k && Cached(ic0, k);
      if Spare(refs0) {
        var z :| 0 <= z < |refs0| && refs0[z] == 0;
        assert refs[z] == 0;
      }
    } else {
      SpareBesideNew(refs0, ip);
    }
  }

  lemma SpareBesideNew(refs: seq<nat>, i: nat)
    requires i < |refs| && refs[i] == 0
    ensures Spare(refs[i := 1]) <==> Spare2(refs)
  {
    var r := refs[i := 1];
    if Spare(r) {
      var z :| 0 <= z < |r| && r[z] == 0;
      assert refs[z] == 0 && z != i;
      assert if z < i then refs[z] == refs[i] == 0 else refs[i] == refs[z] == 0;
    }
    if Spare2(refs) {
      SpareAfterOne(refs, i, 1);
    }
  }

  /** Entries that `refs` counts references for keep their inode. */
  ghost predicate NamesKept(refs: seq<nat>, a: seq<Inode>, b: seq<Inode>)
  {
    |a| == |b| == |refs| && forall s :: 0 <= s < |refs| && refs[s] > 0 ==> b[s].inum == a[s].inum
  }

  lemma NamesKeptBy(refs: seq<nat>, a: seq<Inode>, b: seq<Inode>)
    requires SameNames(a, b) && |a| == |refs| && forall s :: 0 <= s < |refs| ==> IRefs(a)[s] >= refs[s]
    ensures NamesKept(refs, a, b)
  {
    assert forall s :: 0 <= s < |refs| ==> IRefs(a)[s] == a[s].ref;
  }

  lemma NamesKeptTrans(refs: seq<nat>, a: seq<Inode>, b: seq<Inode>, c: seq<Inode>)
    requires NamesKept(refs, a, b) && NamesKept(refs, b, c)
    ensures NamesKept(refs, a, c)
  {}

  class FileSystem {
    const bc: BufferCache
    var sb: SuperBlock
    var icache: seq<Inode>
    ghost var ino: seq<Dinode>

    /** The buffer cache is usable with room for one more held buffer. */
    ghost predicate Ready()
      reads this, bc, bc.vd
    {
      bc.Valid() && bc.dev == ROOTDEV && GoodSb(sb, |bc.disk|) && Spare(bc.Refs())
    }

    /**
     Between operations: the disk satisfies the global invariant for the inode table
     `ino`, the table is exactly what is on disk, and the inode cache agrees with it.
     */
    ghost predicate Valid()
      reads this, bc, bc.vd
      ensures Valid() ==> bc.Valid() && |icache| == 50 && IcacheOk(icache, ino)
    {
      bc.Valid() && bc.dev == ROOTDEV && Spare2(bc.Refs()) &&
      FsInv(sb, bc.disk, ino) && OnDisk(sb, bc.disk, ino, -1) && IcacheOk(icache, ino)
    }

    lemma ValidIsReady()
      requires Valid()
      ensures Ready()
    {
      SpareAfterOne(bc.Refs(), 0, 0);
    }

    /** fsinit: read the superblock and empty the inode cache. */
    constructor Fsinit(bc: BufferCache, ghost table: seq<Dinode>)
      requires bc.Valid() && bc.dev == ROOTDEV && Spare2(bc.Refs()) && 1 < |bc.disk|
      requires DecSuper(bc.disk[1]).magic == FSMAGIC
      requires FsInv(DecSuper(bc.disk[1]), bc.disk, table) && OnDisk(DecSuper(bc.disk[1]), bc.disk, table, -1)
      modifies bc, bc.vd
      ensures this.bc == bc && Valid() && ino == table && sb == DecSuper(bc.disk[1])
      ensures bc.disk == old(bc.disk) && bc.Refs() == old(bc.Refs())
      ensures forall s :: 0 <= s < 50 ==> icache[s].ref == 0
    {
      hide BufferCache.Valid, BufferCache.ValidExcept, FsInv, OnDisk, DecSuper, Spare2;
      assert GoodSb(DecSuper(bc.disk[1]), |bc.disk|) by { SuperGood(DecSuper(bc.disk[1]), bc.disk, table); }
      this.bc := bc;
      sb := SuperBlock(0, 0, 0, 0, 0, 0, 0, 0);
      icache := seq(50, i => Inode(0, 0, 0, false, ZeroDinode()));
      ino := table;
      new;
      SpareAfterOne(bc.Refs(), 0, 0);
      var bp := bc.Bread(ROOTDEV, 1);
      sb := DecSuper(bc.bufs[bp].data);
      bc.Brelse(bp);
      for i := 0 to 50
        modifies this`icache
        invariant |icache| == 50 && forall s :: 0 <= s < 50 ==> icache[s].ref == 0 && !icache[s].valid
      {
        icache := icache[i := icache[i].(ref := 0, valid := false)];
      }
      assert bc.Refs() == old(bc.Refs());
      assert IcacheOk(icache, ino);
    }

    /** bzero */
    method Bzero(dev: nat, bno: nat)
      requires Ready() && dev == ROOTDEV && bno < |bc.disk|
      modifies bc, bc.vd
      ensures bc.Valid() && bc.disk == old(bc.disk)[bno := ZeroBlock()]
      ensures bc.Refs() == old(bc.Refs()) && bc.HeldKept()
    {
      hide BufferCache.Valid, BufferCache.ValidExcept;
      var bp := bc.Bread(dev, bno);
      bc.Store(bp, ZeroBlock());
      bc.Bwrite(bp);
      bc.Brelse(bp);
    }

    /** bread, memmove into the buffer, bwrite, brelse. */
    method StoreIn(dev: nat, bno: nat, at: nat, x: seq<byte>)
      requires Ready() && dev == ROOTDEV && bno < |bc.disk| && at + |x| <= 1024
      modifies bc, bc.vd
      ensures bc.Valid() && bc.disk == old(bc.disk)[bno := Splice(old(bc.disk)[bno], at, x)]
      ensures bc.Refs() == old(bc.Refs()) && bc.HeldKept()
    {
      hide BufferCache.Valid, BufferCache.ValidExcept, GoodSb;
      var bp := bc.Bread(dev, bno);
      bc.Store(bp, Splice(bc.bufs[bp].data, at, x));
      bc.Bwrite(bp);
      bc.Brelse(bp);
      assert bc.Refs() == old(bc.Refs());
    }

    /** bread, memmove out of the buffer, brelse. */
    method LoadFrom(dev: nat, bno: nat, at: nat, m: nat) returns (x: seq<byte>)
      requires Ready() && dev == ROOTDEV && bno < |bc.disk| && at + m <= 1024
      modifies bc, bc.vd
      ensures bc.Valid() && bc.disk == old(bc.disk) && bc.Refs() == old(bc.Refs())
      ensures x == bc.disk[bno][at..at + m]
    {
      hide BufferCache.Valid, BufferCache.ValidExcept, GoodSb;
      var bp := bc.Bread(dev, bno);
      x := bc.bufs[bp].data[at..at + m];
      bc.Brelse(bp);
      assert bc.Refs() == old(bc.Refs());
    }

    // -------------------------------------------------------------- balloc

    /** fs.c:145-146: the lowest clear bit of a byte that is not all ones. */
    method LowestClear(m: byte) returns (k: nat)
      requires m != 0xff
      ensures k < 8 && !BitOf(m, k) && forall j :: 0 <= j < k ==> BitOf(m, j)
    {
      ByteHasRoom(m);
      k := 0;
      while k < 8 && BitOf(m, k)
        invariant k <= 8 && forall j :: 0 <= j < k ==> BitOf(m, j)
      {
        k := k + 1;
      }
    }

    /** fs.c:142-144: the first byte of bitmap block b/8192 that is not full, if any. */
    method ScanBitmapBlock(data: Block, b: nat) returns (bi: nat)
      requires GoodSb(sb, |bc.disk|) && b % 8192 == 0 && b < sb.size && data == bc.disk[sb.bmapstart as int + b / 8192]
      ensures bi <= 1024
      ensures bi == 1024 || b + bi * 8 >= sb.size || data[bi] != 0xff
      ensures forall x :: b <= x < b + bi * 8 ==> BitAt(sb, bc.disk, x)
    {
      bi := 0;
      while bi < 1024 && b + bi * 8 < sb.size && data[bi] == 0xff
        invariant bi <= 1024 && forall x :: b <= x < b + bi * 8 ==> BitAt(sb, bc.disk, x)
      {
        ByteHasRoom(data[bi]);
        forall x | b + bi * 8 <= x < b + bi * 8 + 8
          ensures BitAt(sb, bc.disk, x)
        {
          StoreBit(sb, bc.disk, b, bi, x - b - bi * 8, data);
        }
        bi := bi + 1;
      }
    }

    /** fs.c:147-149: set the bit on disk and release the bitmap block. */
    method TakeBit(bp: nat, b: nat, bi: nat, k: nat)
      requires bc.Valid() && bc.dev == ROOTDEV && GoodSb(sb, |bc.disk|)
      requires b % 8192 == 0 && bi < 1024 && k < 8 && b + bi * 8 < sb.size
      requires bp < HEAD && bc.bufs[bp].refcnt > 0 && bc.bufs[bp].blockno == sb.bmapstart as int + b / 8192
      requires sb.bmapstart as int + b / 8192 < |bc.disk| && bc.bufs[bp].data == bc.disk[sb.bmapstart as int + b / 8192]
      modifies bc, bc.vd
      ensures sb.bmapstart as int + (b + bi * 8 + k) / 8192 < |old(bc.disk)|
      ensures bc.Valid() && bc.disk == MarkUsed(sb, old(bc.disk), b + bi * 8 + k)
      ensures bc.Refs() == old(bc.Refs())[bp := old(bc.Refs())[bp] - 1] && bc.HeldKept()
    {
      hide BufferCache.Valid, BufferCache.ValidExcept;
      var data := bc.bufs[bp].data;
      StoreBit(sb, bc.disk, b, bi, k, data);
      bc.Store(bp, data[bi := SetBitOf(data[bi], k)]);
      bc.Bwrite(bp);
      bc.Brelse(bp);
    }

    /** From `disk` to the present one, the scan ended at block r: marked, and zeroed if the device has it. */
    ghost predicate Allocated(disk: Disk, r: Allocation)
      reads this, bc
    {
      match r
      case Got(x) =>
        Lowest(sb, disk, x) && sb.bmapstart as int + x / 8192 < |disk| && x < |disk| &&
        bc.disk == AllocDisk(sb, disk, x)
      case Absent(x) =>
        Lowest(sb, disk, x) && sb.bmapstart as int + x / 8192 < |disk| <= x && bc.disk == MarkUsed(sb, disk, x)
      case OutOfBlocks =>
        bc.disk == disk && forall x :: 0 <= x < ScanEnd(sb.size) ==> BitAt(sb, disk, x)
    }

    /** fs.c:141-156: one bitmap block; on OutOfBlocks the scan goes on with the next one. */
    method TryBitmapBlock(dev: nat, b: nat) returns (r: Allocation)
      requires Ready() && dev == ROOTDEV && b % 8192 == 0 && b < sb.size
      requires forall x :: 0 <= x < b ==> BitAt(sb, bc.disk, x)
      modifies bc, bc.vd
      ensures bc.Valid() && bc.Refs() == old(bc.Refs()) && bc.HeldKept()
      ensures !r.OutOfBlocks? ==> Allocated(old(bc.disk), r)
      ensures r.OutOfBlocks? ==>
        bc.disk == old(bc.disk) && forall x :: 0 <= x < b + 8192 && x < ScanEnd(sb.size) ==> BitAt(sb, bc.disk, x)
    {
      hide BufferCache.Valid, BufferCache.ValidExcept, BitAt, AllocDisk, MarkUsed;
      var bp := bc.Bread(dev, sb.bmapstart as int + b / 8192);
      var bi := ScanBitmapBlock(bc.bufs[bp].data, b);
      WholeByte(sb.size, b, bi);
      if bi < 1024 && b + bi * 8 < sb.size {
        var k := LowestClear(bc.bufs[bp].data[bi]);
        FoundBit(sb, bc.disk, b, bi, k, bc.bufs[bp].data);
        assert bc.Refs()[bp := bc.Refs()[bp] - 1] == old(bc.Refs());
        TakeBit(bp, b, bi, k);
        r := ZeroTaken(dev, b + bi * 8 + k, old(bc.disk));
      } else {
        bc.Brelse(bp);
        r := OutOfBlocks;
      }
    }

    /** fs.c:150-151: zero the block whose bit was set; a block past the device makes the driver panic. */
    method ZeroTaken(dev: nat, x: nat, ghost disk0: Disk) returns (r: Allocation)
      requires Ready() && dev == ROOTDEV && Lowest(sb, disk0, x)
      requires sb.bmapstart as int + x / 8192 < |disk0| && bc.disk == MarkUsed(sb, disk0, x)
      modifies bc, bc.vd
      ensures bc.Valid() && bc.Refs() == old(bc.Refs()) && bc.HeldKept()
      ensures !r.OutOfBlocks? && r.block == x && Allocated(disk0, r)
    {
      hide BufferCache.Valid, BufferCache.ValidExcept, MarkUsed, BitAt;
      bc.DeviceBlocks();
      if x < |bc.vd.sectors| / 2 {
        Bzero(dev, x);
        r := Got(x);
      } else {
        r := Absent(x);
      }
    }

    /**
     balloc on any disk of any size: the lowest clear bit of the scan, marked and zeroed.
     With a free block that is the lowest free block; otherwise it lies past the disk
     exactly when the last bitmap byte has a clear bit behind the disk's blocks.
     */
    method Balloc(dev: nat) returns (r: Allocation)
      requires Ready() && dev == ROOTDEV
      modifies bc, bc.vd
      ensures bc.Valid() && bc.Refs() == old(bc.Refs()) && bc.HeldKept()
      ensures Allocated(old(bc.disk), r)
      ensures FreeBlocks(sb, old(bc.disk)) != {} ==> r.Got? && Takeable(sb, old(bc.disk), r.block)
      ensures !r.OutOfBlocks? && r.block >= sb.size <==> OnlyBeyond(sb, old(bc.disk))
      ensures r.OutOfBlocks? <==> FreeBlocks(sb, old(bc.disk)) == {} && !OnlyBeyond(sb, old(bc.disk))
    {
      hide BufferCache.Valid, BufferCache.ValidExcept, BitAt, AllocDisk, MarkUsed;
      var b := 0;
      while b < sb.size
        invariant b % 8192 == 0 && bc.Valid() && bc.disk == old(bc.disk) && bc.Refs() == old(bc.Refs()) && bc.HeldKept()
        invariant forall x :: 0 <= x < b && x < ScanEnd(sb.size) ==> BitAt(sb, bc.disk, x)
        decreases sb.size - b
      {
        r := TryBitmapBlock(dev, b);
        if !r.OutOfBlocks? {
          LowestIsFree(sb, old(bc.disk), r.block);
          return;
        }
        b := b + 8192;
      }
      WholeByte(sb.size, b, 0);
      r := OutOfBlocks;
    }

    /** bfree: the panic on a free block is excluded by the precondition. */
    method Bfree(dev: nat, b: nat)
      requires Ready() && dev == ROOTDEV && b < sb.size && BitAt(sb, bc.disk, b)
      modifies bc, bc.vd
      ensures bc.Valid() && bc.Refs() == old(bc.Refs()) && bc.HeldKept()
      ensures sb.bmapstart as int + b / 8192 < |old(bc.disk)| && bc.disk == FreeDisk(sb, old(bc.disk), b)
    {
      hide BufferCache.Valid, BufferCache.ValidExcept;
      assert sb.bmapstart as int + b / 8192 < Nmeta(sb);
      var bp := bc.Bread(dev, sb.bmapstart as int + b / 8192);
      var bi, k := b % 8192 / 8, b % 8;
      BitToClear(bc.bufs[bp].data, b);
      assert Bit(bc.disk[sb.bmapstart as int + b / 8192], b % 8192);
      hide Bit, ClearBit, BitOf, ClearBitOf, BitAt;
      if !BitOf(bc.bufs[bp].data[bi], k) {
        assert false;
      }
      bc.Store(bp, bc.bufs[bp].data[bi := ClearBitOf(bc.bufs[bp].data[bi], k)]);
      bc.Bwrite(bp);
      bc.Brelse(bp);
    }

    // -------------------------------------------------------------- inodes

    /** iget: one more reference to the inode's cache entry, which is created if needed. */
    method Iget(dev: nat, inum: nat) returns (ip: nat)
      requires IcacheOk(icache, ino) && dev == ROOTDEV && Live(ino, inum) && CanGet(icache, inum)
      modifies this`icache
      ensures IcacheOk(icache, ino) && ip < 50 && icache[ip].inum == inum && (old(Valid()) ==> Valid())
      ensures forall t :: 0 <= t < 50 && t != ip ==> icache[t] == old(icache[t])
      ensures IRefs(icache) == IRefs(old(icache))[ip := IRefs(old(icache))[ip] + 1]
      ensures SameNames(old(icache), icache)
    {
      hide FsInv, OnDisk, BufferCache.Valid, BufferCache.ValidExcept, Spare2, IcacheOk, CanGet;
      ghost var ic := icache;
      IcacheDevs(ic, ino);
      var empty := 50;
      ip := 0;
      while ip < 50
        invariant ip <= 50 && icache == ic && empty <= 50
        invariant forall t :: 0 <= t < ip ==> !(icache[t].ref > 0 && icache[t].inum == inum)
        invariant empty < 50 ==> icache[empty].ref == 0
        invariant empty == 50 ==> forall t :: 0 <= t < ip ==> icache[t].ref > 0
      {
        if icache[ip].ref > 0 && icache[ip].dev == dev && icache[ip].inum == inum {
          icache := icache[ip := icache[ip].(ref := icache[ip].ref + 1)];
          AddEntryRef(ic, ino, ip);
          return;
        }
        if empty == 50 && icache[ip].ref == 0 {
          empty := ip;
        }
        ip := ip + 1;
      }
      SomeEntry(ic, inum);
      ip := empty;
      icache := icache[ip := icache[ip].(dev := dev, inum := inum, ref := 1, valid := false)];
      NewEntry(ic, ino, ip, inum);
    }

    /** iput: one reference less; the last one empties the cache entry. */
    method Iput(ip: nat)
      requires IcacheOk(icache, ino) && ip < 50 && icache[ip].ref > 0
      modifies this`icache
      ensures IcacheOk(icache, ino) && (old(Valid()) ==> Valid())
      ensures forall t :: 0 <= t < 50 && t != ip ==> icache[t] == old(icache[t])
      ensures IRefs(icache) == IRefs(old(icache))[ip := IRefs(old(icache))[ip] - 1]
      ensures SameNames(old(icache), icache)
    {
      hide FsInv, OnDisk, BufferCache.Valid, BufferCache.ValidExcept, Spare2, IcacheOk;
      ghost var ic := icache;
      IcacheLength(ic, ino);
      if icache[ip].ref == 1 && icache[ip].valid && icache[ip].di.nlink == 0 {
        icache := icache[ip := icache[ip].(valid := false)];
      }
      icache := icache[ip := icache[ip].(ref := icache[ip].ref - 1)];
      if icache[ip].ref == 0 {
        icache := icache[ip := icache[ip].(valid := false)];
      }
      assert icache == ic[ip := icache[ip]];
      DropEntryRef(ic, ino, ip, icache[ip]);
    }

    /** ilock: after it the cache entry is loaded; its type is never 0. */
    method Ilock(ip: nat)
      requires Valid() && ip < 50 && icache[ip].ref > 0
      modifies this`icache, bc, bc.vd
      ensures Valid() && bc.disk == old(bc.disk) && bc.Refs() == old(bc.Refs())
      ensures icache == old(icache)[ip := old(icache[ip]).(valid := true, di := ino[old(icache[ip].inum)])]
      ensures icache[ip].di.kind != 0
      ensures SameNames(old(icache), icache) && IRefs(icache) == IRefs(old(icache))
    {
      hide BufferCache.Valid, BufferCache.ValidExcept, Exclusive, MetaBits, InodeInv, DinodeAt;
      if !icache[ip].valid {
        SpareAfterOne(bc.Refs(), 0, 0);
        var d := ReadDinode(icache[ip].dev, icache[ip].inum);
        icache := icache[ip := icache[ip].(di := d)];
        icache := icache[ip := icache[ip].(valid := true)];
        assert icache[ip].di.kind != 0;
      }
    }

    /** fs.c:248-260 */
    method ReadDinode(dev: nat, inum: nat) returns (d: Dinode)
      requires Ready() && dev == ROOTDEV && inum < sb.ninodes
      modifies bc, bc.vd
      ensures sb.inodestart as int + inum / 16 < |bc.disk|
      ensures bc.Valid() && bc.disk == old(bc.disk) && bc.Refs() == old(bc.Refs()) && d == DinodeAt(sb, bc.disk, inum)
    {
      hide BufferCache.Valid, BufferCache.ValidExcept, DecDinode, PutInode;
      PutInodeTable(sb, bc.disk, inum, ZeroDinode(), inum);
      var x := LoadFrom(dev, sb.inodestart as int + inum / 16, 64 * (inum % 16), 64);
      d := DecDinode(x);
    }

    /** iupdate: the in-core inode replaces the one on disk. */
    method Iupdate(ip: nat)
      requires Ready() && ip < |icache| && icache[ip].inum < sb.ninodes && |icache[ip].di.addrs| == 13
      requires icache[ip].dev == ROOTDEV
      modifies bc, bc.vd
      ensures bc.Valid() && bc.disk == PutInode(sb, old(bc.disk), icache[ip].inum, icache[ip].di)
      ensures bc.Refs() == old(bc.Refs())
    {
      hide BufferCache.Valid, BufferCache.ValidExcept, GetDinode, EncDinode, DinodeAt;
      var inum := icache[ip].inum;
      PutInodeTable(sb, bc.disk, inum, icache[ip].di, inum);
      StoreIn(icache[ip].dev, sb.inodestart as int + inum / 16, 64 * (inum % 16), EncDinode(icache[ip].di));
    }

    // -------------------------------------------------------------- bmap

    /** bmap: look up or allocate the block of logical block bn. */
    method Bmap(ip: nat, bn: nat) returns (addr: u32)
      requires bc.Valid() && bc.dev == ROOTDEV && GoodSb(sb, |bc.disk|) && Spare2(bc.Refs()) && MetaBits(sb, bc.disk)
      requires ip < |icache| && icache[ip].dev == ROOTDEV && |icache[ip].di.addrs| == 13 && bn < 268
      requires icache[ip].di.addrs[12] < sb.size
      requires Ptr(bc.disk, icache[ip].di, bn) == 0 ==>
        |FreeBlocks(sb, bc.disk)| >= if bn >= 12 && icache[ip].di.addrs[12] == 0 then 2 else 1
      modifies this`icache, bc, bc.vd
      ensures bc.Valid() && bc.Refs() == old(bc.Refs())
      ensures |icache| == old(|icache|) && icache == old(icache)[ip := old(icache[ip]).(di := icache[ip].di)]
      ensures |icache[ip].di.addrs| == 13
      ensures BmapStep(sb, old(bc.disk), old(icache[ip].di), bn, bc.disk, icache[ip].di, addr)
    {
      hide BufferCache.Valid, BufferCache.ValidExcept, AllocDisk, BitAt, FreeBlocks, MetaBits;
      SpareAfterOne(bc.Refs(), 0, 0);
      if bn < 12 {
        addr := icache[ip].di.addrs[bn];
        if addr == 0 {
          FreeNonempty(sb, bc.disk);
          var a := Balloc(icache[ip].dev);
          addr := a.block;
          icache := icache[ip := icache[ip].(di := icache[ip].di.(addrs := icache[ip].di.addrs[bn := addr]))];
        }
        return;
      }
      addr := icache[ip].di.addrs[12];
      if addr == 0 {
        FreeNonempty(sb, bc.disk);
        var a := Balloc(icache[ip].dev);
        addr := a.block;
        FirstAllocated(sb, old(bc.disk), addr, bn);
        icache := icache[ip := icache[ip].(di := icache[ip].di.(addrs := icache[ip].di.addrs[12 := addr]))];
      }
      addr := BmapIndirect(icache[ip].dev, addr, bn);
    }

    /** fs.c:400-409: the entry of the indirect block, filled in if it is 0. */
    method BmapIndirect(dev: nat, ib: nat, bn: nat) returns (addr: u32)
      requires bc.Valid() && bc.dev == ROOTDEV && GoodSb(sb, |bc.disk|) && Spare2(bc.Refs()) && dev == ROOTDEV
      requires 12 <= bn < 268 && ib < sb.size
      requires Word(bc.disk[ib], bn - 12) == 0 ==> FreeBlocks(sb, bc.disk) != {}
      modifies bc, bc.vd
      ensures bc.Valid() && bc.Refs() == old(bc.Refs())
      ensures var w := Word(old(bc.disk)[ib], bn - 12);
        if w != 0 then addr == w && bc.disk == old(bc.disk)
        else Takeable(sb, old(bc.disk), addr) && bc.disk == LinkedDisk(AllocDisk(sb, old(bc.disk), addr), ib, bn, addr)
    {
      hide BufferCache.Valid, BufferCache.ValidExcept, AllocDisk, FreeBlocks, BitAt, Word, PutWord;
      SpareAfterOne(bc.Refs(), 0, 0);
      var bp := bc.Bread(dev, ib);
      addr := Word(bc.bufs[bp].data, bn - 12);
      if addr == 0 {
        SpareAfterOne(old(bc.Refs()), bp, old(bc.Refs())[bp] + 1);
        var a := Balloc(dev);
        addr := a.block;
        bc.HeldIsDisk(bp);
        bc.Store(bp, PutWord(bc.bufs[bp].data, bn - 12, addr));
        bc.Bwrite(bp);
      }
      bc.Brelse(bp);
    }

    // -------------------------------------------------------------- readi

    /** A loaded, referenced cache entry: what ilock leaves. */
    ghost predicate Locked(ip: nat)
      reads this
    {
      |icache| == 50 && ip < 50 && icache[ip].ref > 0 && icache[ip].valid
    }

    /**
     readi: the bytes of the file from off on, cut at the end of the file; nothing if
     off + n wraps around.  Nothing changes, although bmap is the allocating one.
     */
    method Readi(ip: nat, off: u32, n: u32) returns (r: nat, dst: seq<byte>)
      requires Valid() && Locked(ip)
      modifies this`icache, bc, bc.vd
      ensures Valid() && bc.disk == old(bc.disk) && icache == old(icache) && bc.Refs() == old(bc.Refs())
      ensures r == |dst| && |icache[ip].di.addrs| == 13 && icache[ip].di.size <= 274432
      ensures var c := Content(bc.disk, icache[ip].di);
        if off > |c| || off as int + n as int >= 0x1_0000_0000 then dst == []
        else dst == c[off..if off + n <= |c| then off + n else |c|]
    {
      hide BufferCache.Valid, BufferCache.ValidExcept, Exclusive, OnDisk, ByteAt, BitAt;
      ghost var d := icache[ip].di;
      assert InodeInv(sb, bc.disk, d);
      r, dst := 0, [];
      var left: nat := n;
      if off > icache[ip].di.size || (off as int + n as int) % 0x1_0000_0000 < off {
        return;
      }
      if off as int + left > icache[ip].di.size as int {
        left := icache[ip].di.size as int - off as int;
      }
      ghost var c := Content(bc.disk, d);
      while r < left
        invariant r <= left && off as int + left <= d.size && |dst| == r
        invariant Valid() && bc.disk == old(bc.disk) && icache == old(icache) && bc.Refs() == old(bc.Refs())
        invariant dst == c[off..off as int + r]
        decreases left - r
      {
        var x := ReadChunk(ip, off as int + r, left - r);
        dst := dst + x;
        r := r + |x|;
      }
    }

    /** fs.c:450-463: the bytes of one block, at most n of them. */
    method ReadChunk(ip: nat, off: nat, n: nat) returns (x: seq<byte>)
      requires Valid() && Locked(ip) && n > 0 && off + n <= icache[ip].di.size
      modifies this`icache, bc, bc.vd
      ensures Valid() && bc.disk == old(bc.disk) && icache == old(icache) && bc.Refs() == old(bc.Refs())
      ensures |icache[ip].di.addrs| == 13 && icache[ip].di.size <= 274432
      ensures 0 < |x| <= n && x == Content(bc.disk, icache[ip].di)[off..off + |x|]
    {
      hide BufferCache.Valid, BufferCache.ValidExcept, Exclusive, OnDisk, ByteAt, BitAt;
      ghost var d := icache[ip].di;
      assert InodeInv(sb, bc.disk, d);
      var m := ChunkLen(off, n);
      BlockBytes(sb, bc.disk, d, off, m);
      AddrBound(sb, bc.disk, d);
      SpareAfterOne(bc.Refs(), 0, 0);
      hide InodeInv;
      var blockno := Bmap(ip, off / 1024);
      assert icache[ip].di == d;
      assert icache == old(icache);
      x := LoadFrom(icache[ip].dev, blockno, off % 1024, m);
    }

    // -------------------------------------------------------------- writei

    /**
     In the middle of writei on cache entry ip: the in-core inode may be ahead of the
     disk, and `ino` counts the bytes written so far into its size.
     */
    ghost predicate Writing(ip: nat)
      reads this, bc, bc.vd
      ensures Writing(ip) ==> bc.Valid()
    {
      bc.Valid() && bc.dev == ROOTDEV && Spare2(bc.Refs()) && FsInv(sb, bc.disk, ino) &&
      |icache| == 50 && ip < 50 && icache[ip].dev == ROOTDEV && Live(ino, icache[ip].inum) &&
      |icache[ip].di.addrs| == 13 && ino[icache[ip].inum] == icache[ip].di.(size := ino[icache[ip].inum].size) &&
      icache[ip].di.size <= ino[icache[ip].inum].size && OnDisk(sb, bc.disk, ino, icache[ip].inum)
    }

    /** The effect of writing x at off on the file of cache entry ip, and on nothing else. */
    twostate predicate Wrote(ip: nat, off: nat, x: seq<byte>)
      requires old(Writing(ip)) && Writing(ip)
      reads this, bc, bc.vd
    {
      var k := icache[ip].inum;
      icache == old(icache)[ip := old(icache[ip]).(di := icache[ip].di)] &&
      icache[ip].di.size == old(icache[ip].di.size) &&
      Progress(sb, old(bc.disk), old(ino), k, bc.disk, ino, off, x) &&
      (off + |x| <= old(ino[k].size) ==> icache == old(icache))
    }

    /** fs.c:547: map the block; the file now counts as reaching off + m. */
    method MapChunk(ip: nat, off: nat, m: nat) returns (p: u32)
      requires Writing(ip) && 0 < m && off % 1024 + m <= 1024 && off + m <= 274432 && off <= ino[icache[ip].inum].size
      requires off + m <= ino[icache[ip].inum].size ||
        BlocksFor(off + m) - BlocksFor(ino[icache[ip].inum].size) <= |FreeBlocks(sb, bc.disk)|
      modifies this`icache, this`ino, bc, bc.vd
      ensures Writing(ip) && bc.Refs() == old(bc.Refs())
      ensures icache == old(icache)[ip := old(icache[ip]).(di := icache[ip].di)]
      ensures icache[ip].di.size == old(icache[ip].di.size)
      ensures var k := icache[ip].inum;
        p == Ptr(bc.disk, ino[k], off / 1024) &&
        ino == old(ino)[k := ino[k]] && Attrs(ino[k]) == old(Attrs(ino[k])) &&
        ino[k].size == (if off + m <= old(ino[k].size) then old(ino[k].size) else off + m) &&
        Grown(sb, old(bc.disk), old(ino), k, bc.disk, ino[k]) &&
        (off + m <= old(ino[k].size) ==> icache == old(icache))
    {
      hide BufferCache.Valid, BufferCache.ValidExcept, Exclusive, MetaBits, BitAt, Content, FreeBlocks, SameFiles,
        BlocksFor,
        InodeInv, Ptr, Mapped, OnDisk, BmapStep, SameHead;
      ghost var k := icache[ip].inum;
      ghost var ino0, disk0, d0, s0 := ino, bc.disk, icache[ip].di, ino[k].size;
      ghost var ns: u32 := if off + m <= s0 then s0 else off + m;
      BmapReady(sb, bc.disk, ino[k], d0, off / 1024, ns);
      p := Bmap(ip, off / 1024);
      BmapSize(sb, disk0, d0, off / 1024, bc.disk, icache[ip].di, p, ns);
      BmapStepAnySize(sb, disk0, d0, off / 1024, bc.disk, icache[ip].di, p, s0);
      BmapGrow(sb, disk0, ino0, k, off / 1024, bc.disk, icache[ip].di.(size := s0), p, ns);
      HeadOnDisk(sb, disk0, bc.disk, ino0, k, icache[ip].di.(size := ns));
      ino := ino[k := icache[ip].di.(size := ns)];
      BmapSize(sb, disk0, ino0[k], off / 1024, bc.disk, icache[ip].di.(size := s0), p, ns);
    }

    /** fs.c:548-556: store the bytes in the mapped block. */
    method StoreChunk(ip: nat, off: nat, x: seq<byte>, p: u32)
      requires Writing(ip) && 0 < |x| && off % 1024 + |x| <= 1024 && off + |x| <= ino[icache[ip].inum].size
      requires off / 1024 < 268 && p == Ptr(bc.disk, ino[icache[ip].inum], off / 1024)
      modifies bc, bc.vd
      ensures Writing(ip) && bc.Refs() == old(bc.Refs())
      ensures var k := icache[ip].inum;
        Content(bc.disk, ino[k]) == Splice(old(Content(bc.disk, ino[k])), off, x) &&
        SameFiles(old(bc.disk), bc.disk, ino, k) && SameHead(sb, old(bc.disk), bc.disk) &&
        FreeBlocks(sb, bc.disk) == old(FreeBlocks(sb, bc.disk))
    {
      hide BufferCache.Valid, BufferCache.ValidExcept, Exclusive, MetaBits, BitAt, Content, FreeBlocks, Ptr;
      ghost var k := icache[ip].inum;
      ghost var disk0 := bc.disk;
      WriteBlock(sb, bc.disk, ino, k, off, x);
      SpareAfterOne(bc.Refs(), 0, 0);
      StoreIn(icache[ip].dev, p, off % 1024, x);
      KeptFiles(sb, disk0, bc.disk, ino, k);
      HeadOnDisk(sb, disk0, bc.disk, ino, k, ino[k]);
      assert ino[k := ino[k]] == ino;
    }

    /** fs.c:547-556: one round of the loop of writei. */
    method WriteChunk(ip: nat, off: nat, x: seq<byte>)
      requires Writing(ip) && 0 < |x| && off % 1024 + |x| <= 1024 && off + |x| <= 274432
      requires off <= ino[icache[ip].inum].size
      requires off + |x| <= ino[icache[ip].inum].size ||
        BlocksFor(off + |x|) - BlocksFor(ino[icache[ip].inum].size) <= |FreeBlocks(sb, bc.disk)|
      modifies this`icache, this`ino, bc, bc.vd
      ensures Writing(ip) && bc.Refs() == old(bc.Refs()) && Wrote(ip, off, x)
    {
      hide BufferCache.Valid, BufferCache.ValidExcept, FsInv, BitAt, Content, FreeBlocks, Ptr, SameFiles, SameHead,
        OnDisk, BlocksFor;
      ghost var k := icache[ip].inum;
      ghost var ino0, disk0 := ino, bc.disk;
      WritingLengths(ip);
      var p := MapChunk(ip, off, |x|);
      ghost var disk1 := bc.disk;
      StoreChunk(ip, off, x, p);
      WritingLengths(ip);
      SpliceIsWritten(Content(disk0, ino0[k]), Content(disk1, ino[k]), off, x);
      SameFilesTrans(disk0, disk1, bc.disk, ino0, k, ino[k]);
      SameHeadTrans(sb, disk0, disk1, bc.disk);
    }

    lemma WritingLengths(ip: nat)
      requires Writing(ip)
      ensures |icache| == 50 && ip < 50 && icache[ip].inum < |ino|
      ensures (forall k :: 0 <= k < |ino| ==> |ino[k].addrs| == 13) && ino[icache[ip].inum].size <= 274432
      ensures |Content(bc.disk, ino[icache[ip].inum])| == ino[icache[ip].inum].size
    {
      assert InodeInv(sb, bc.disk, ino[icache[ip].inum]);
    }

    /** writei gives up: the offset is past the end, the sum wraps, or the file would be too large. */
    static predicate TooFar(size: nat, off: nat, n: nat)
    {
      off > size || off + n >= 0x1_0000_0000 || off + n > 274432
    }

    /** The file of cache entry ip had x written at off; every other file is as before. */
    twostate predicate WroteFile(ip: nat, off: nat, x: seq<byte>)
      requires old(Valid()) && Valid() && old(Locked(ip)) && Locked(ip)
      requires off <= old(icache[ip].di.size)
      reads this, bc, bc.vd
    {
      var k := icache[ip].inum;
      icache == old(icache)[ip := old(icache[ip]).(di := ino[k])] &&
      ino == old(ino)[k := ino[k]] && Attrs(ino[k]) == old(Attrs(ino[k])) &&
      Content(bc.disk, ino[k]) == Written(old(Content(bc.disk, ino[k])), off, x) &&
      SameFiles(old(bc.disk), bc.disk, old(ino), k) &&
      (|bc.disk| == |old(bc.disk)| && forall b :: 0 <= b < sb.inodestart ==> bc.disk[b] == old(bc.disk)[b]) &&
      |FreeBlocks(sb, bc.disk)| + BlocksFor(ino[k].size) == old(|FreeBlocks(sb, bc.disk)| + BlocksFor(ino[k].size))
    }

    /** writei */
    method Writei(ip: nat, src: seq<byte>, off: u32, n: u32) returns (r: int)
      requires Valid() && Locked(ip) && (n <= 274432 ==> n <= |src|)
      requires TooFar(icache[ip].di.size, off, n) || off + n <= icache[ip].di.size ||
        BlocksFor(off + n) - BlocksFor(icache[ip].di.size) <= |FreeBlocks(sb, bc.disk)|
      modifies this`icache, this`ino, bc, bc.vd
      ensures Valid() && Locked(ip) && bc.Refs() == old(bc.Refs())
      ensures off > old(icache[ip].di.size) || off + n >= 0x1_0000_0000 || off + n > 274432 ==>
        r == -1 && bc.disk == old(bc.disk) && icache == old(icache) && ino == old(ino)
      ensures off <= old(icache[ip].di.size) && off + n < 0x1_0000_0000 && off + n <= 274432 ==>
        r == n && WroteFile(ip, off, src[..n])
    {
      hide FileSystem.Valid, BufferCache.Valid, Content, FreeBlocks, BlocksFor;
      if off > icache[ip].di.size || (off as int + n as int) % 0x1_0000_0000 < off {
        return -1;
      }
      if off as int + n as int > 274432 {
        return -1;
      }
      WriteBytes(ip, src[..n], off);
      r := n;
    }

    lemma ValidIsWriting(ip: nat)
      requires Valid() && Locked(ip)
      ensures Writing(ip) && ino[icache[ip].inum] == icache[ip].di
      ensures (forall k :: 0 <= k < |ino| ==> |ino[k].addrs| == 13) && icache[ip].di.size <= 274432
    {
      assert InodeInv(sb, bc.disk, ino[icache[ip].inum]);
    }

    /** fs.c:546-557: write block by block. */
    method WriteLoop(ip: nat, x: seq<byte>, off: nat)
      requires Writing(ip) && off <= ino[icache[ip].inum].size == icache[ip].di.size && off + |x| <= 274432
      requires off + |x| <= ino[icache[ip].inum].size ||
        BlocksFor(off + |x|) - BlocksFor(ino[icache[ip].inum].size) <= |FreeBlocks(sb, bc.disk)|
      modifies this`icache, this`ino, bc, bc.vd
      ensures Writing(ip) && bc.Refs() == old(bc.Refs()) && Wrote(ip, off, x)
    {
      hide Writing, BufferCache.Valid, FreeBlocks, BlocksFor, Content, SameFiles, SameHead, Progress;
      WritingLengths(ip);
      ghost var k := icache[ip].inum;
      ghost var disk0, ino0 := bc.disk, ino;
      ProgressStart(sb, bc.disk, ino, k, off);
      assert x[..0] == [];
      var tot := 0;
      while tot < |x|
        invariant tot <= |x| && Writing(ip) && bc.Refs() == old(bc.Refs()) && Wrote(ip, off, x[..tot])
        decreases |x| - tot
      {
        var m := ChunkLen(off + tot, |x| - tot);
        ghost var disk1, ino1 := bc.disk, ino;
        WritingLengths(ip);
        ProgressSize(sb, disk0, ino0, k, disk1, ino1, off, x[..tot]);
        BlocksForMonotone(off + tot + m, off + |x|);
        WriteChunk(ip, off + tot, x[tot..tot + m]);
        ProgressTrans(sb, disk0, ino0, k, disk1, ino1, bc.disk, ino, off, x[..tot], x[tot..tot + m]);
        assert x[..tot] + x[tot..tot + m] == x[..tot + m];
        tot := tot + m;
      }
      assert x[..tot] == x;
    }

    /** fs.c:546-563: the loop, then the new size and iupdate if the file grew. */
    method WriteBytes(ip: nat, x: seq<byte>, off: u32)
      requires Valid() && Locked(ip) && !TooFar(icache[ip].di.size, off, |x|)
      requires off as int + |x| <= icache[ip].di.size as int ||
        BlocksFor(off as int + |x|) - BlocksFor(icache[ip].di.size) <= |FreeBlocks(sb, bc.disk)|
      modifies this`icache, this`ino, bc, bc.vd
      ensures Valid() && Locked(ip) && bc.Refs() == old(bc.Refs()) && WroteFile(ip, off, x)
    {
      hide BufferCache.Valid, BufferCache.ValidExcept, BitAt, Content, FreeBlocks, Ptr, SameFiles, BlocksFor,
        Exclusive, MetaBits,
        InodeInv, InodesInv, DinodeAt, Spare2;
      SuperGood(sb, bc.disk, ino);
      ghost var k := icache[ip].inum;
      ValidIsWriting(ip);
      ghost var disk0, ino0 := bc.disk, ino;
      WriteLoop(ip, x, off);
      WritingLengths(ip);
      ghost var disk1 := bc.disk;
      HeadOnDisk(sb, disk0, disk1, ino0, k, ino[k]);
      WrittenLength(old(Content(bc.disk, ino[k])), off, x);
      FinishWrite(ip, |x|, off as int + |x|);
      IcacheAfterWrite(old(icache), ino0, ip, ino[k]);
      AllOnDisk(sb, bc.disk, ino, k);
      FinalFiles(disk0, disk1, bc.disk, ino0, k, ino[k]);
    }

    /** fs.c:560-563: in-core size and iupdate, only when the file grew. */
    method FinishWrite(ip: nat, n: nat, end: nat)
      requires Writing(ip) && end <= 274432 && (n == 0 ==> end <= icache[ip].di.size)
      requires ino[icache[ip].inum].size == if end <= icache[ip].di.size then icache[ip].di.size else end
      modifies this`icache, bc, bc.vd
      ensures Writing(ip) && bc.Refs() == old(bc.Refs())
      ensures icache == old(icache)[ip := old(icache[ip]).(di := ino[icache[ip].inum])]
      ensures end > old(icache[ip].di.size) ==> DinodeAt(sb, bc.disk, icache[ip].inum) == ino[icache[ip].inum]
      ensures end <= old(icache[ip].di.size) ==> bc.disk == old(bc.disk)
      ensures SameFiles(old(bc.disk), bc.disk, ino, -1) && FreeBlocks(sb, bc.disk) == old(FreeBlocks(sb, bc.disk))
      ensures |bc.disk| == |old(bc.disk)| && forall b :: 0 <= b < sb.inodestart ==> bc.disk[b] == old(bc.disk)[b]
    {
      hide BufferCache.Valid, BufferCache.ValidExcept, BitAt, Content, FreeBlocks, Ptr, Exclusive, MetaBits, InodeInv,
        SameFiles, OnDisk, DinodeAt;
      ghost var k := icache[ip].inum;
      if n > 0 && end > icache[ip].di.size as int {
        icache := icache[ip := icache[ip].(di := icache[ip].di.(size := end))];
        PutInodeKeeps(sb, bc.disk, ino, k, icache[ip].di);
        PutInodeOnDisk(sb, bc.disk, ino, k, icache[ip].di);
        assert ino[k := icache[ip].di] == ino;
        SpareAfterOne(bc.Refs(), 0, 0);
        Iupdate(ip);
      } else {
        SameRefl(sb, bc.disk, ino, -1);
      }
    }

    // -------------------------------------------------------------- ialloc

    /** ialloc: the first free inode becomes an empty inode of the given type. */
    method Ialloc(dev: nat, kind: u16) returns (ip: nat)
      requires Valid() && dev == ROOTDEV && kind != 0 && Spare(IRefs(icache))
      requires exists k :: 1 <= k < |ino| && ino[k].kind == 0
      modifies this`icache, this`ino, bc, bc.vd
      ensures Valid() && ip < 50 && bc.Refs() == old(bc.Refs())
      ensures var k := icache[ip].inum;
        1 <= k < |ino| == |old(ino)| && old(ino)[k].kind == 0 && (forall j :: 1 <= j < k ==> old(ino)[j].kind != 0) &&
        ino == old(ino)[k := ZeroDinode().(kind := kind)]
      ensures SameFiles(old(bc.disk), bc.disk, old(ino), -1) && FreeBlocks(sb, bc.disk) == old(FreeBlocks(sb, bc.disk))
      ensures forall t :: 0 <= t < 50 && t != ip ==> icache[t] == old(icache[t])
      ensures IRefs(icache) == IRefs(old(icache))[ip := IRefs(old(icache))[ip] + 1] && SameNames(old(icache), icache)
    {
      hide BufferCache.Valid, BufferCache.ValidExcept, BitAt, FreeBlocks, SameFiles, Exclusive, MetaBits, InodeInv,
        DinodeAt;
      var inum := 1;
      SpareAfterOne(bc.Refs(), 0, 0);
      while inum < sb.ninodes
        invariant 1 <= inum && (forall j :: 1 <= j < inum && j < |ino| ==> ino[j].kind != 0)
        invariant Valid() && bc.disk == old(bc.disk) && bc.Refs() == old(bc.Refs()) && ino == old(ino)
        invariant icache == old(icache)
        decreases sb.ninodes - inum
      {
        var d := ReadDinode(dev, inum);
        if d.kind == 0 {
          ClaimInode(dev, inum, kind);
          ip := Iget(dev, inum);
          return;
        }
        inum := inum + 1;
      }
      assert false;
    }

    /** fs.c:345-347: zero the dinode and store its type. */
    method ClaimInode(dev: nat, inum: nat, kind: u16)
      requires Valid() && dev == ROOTDEV && 1 <= inum < |ino| && ino[inum].kind == 0 && kind != 0
      modifies this`ino, bc, bc.vd
      ensures Valid() && bc.Refs() == old(bc.Refs()) && ino == old(ino)[inum := ZeroDinode().(kind := kind)]
      ensures SameFiles(old(bc.disk), bc.disk, old(ino), -1) && FreeBlocks(sb, bc.disk) == old(FreeBlocks(sb, bc.disk))
    {
      hide BufferCache.Valid, BufferCache.ValidExcept, FreeBlocks, SameFiles, EncDinode, IcacheOk, FsInv, OnDisk,
        ZeroDinode,
        PutInode, Splice, GoodSb;
      SuperGood(sb, bc.disk, ino);
      SpareAfterOne(bc.Refs(), 0, 0);
      var d := EmptyDinode(kind);
      Claimed(sb, bc.disk, ino, inum, d);
      IcacheAfterClaim(icache, ino, inum, d);
      PutInodeIs(sb, bc.disk, inum, d);
      StoreIn(dev, sb.inodestart as int + inum / 16, 64 * (inum % 16), EncDinode(d));
      ino := ino[inum := d];
    }
  }
}

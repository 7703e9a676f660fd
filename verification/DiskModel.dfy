/**
 The meaning of a disk image: bitmap, inodes, block maps and file contents
 (kernel/fs/fs.c), the global invariant that ties them together, and the effect on
 both of the elementary updates the file system makes.
 */
module DiskModel {
  import opened Layout

  type Disk = seq<Block>

  // ---------------------------------------------------------------- layout of the image

  function Nmeta(sb: SuperBlock): nat
  {
    sb.bmapstart as int + (sb.size as int + 8191) / 8192
  }

  /** Boot block, superblock, inode blocks, bitmap blocks, data blocks, in this order. */
  ghost predicate GoodSb(sb: SuperBlock, nblk: nat)
  {
    2 <= sb.inodestart && 1 < sb.ninodes <= 0x1_0000 &&
    sb.inodestart as int + (sb.ninodes as int + 15) / 16 <= sb.bmapstart &&
    Nmeta(sb) <= sb.size <= nblk
  }

  predicate BitAt(sb: SuperBlock, disk: Disk, b: nat)
  {
    sb.bmapstart as int + b / 8192 < |disk| && Bit(disk[sb.bmapstart as int + b / 8192], b % 8192)
  }

  /** Block b has one bit of the bitmap: 8192 of them in each block from bmapstart on, 8 in each byte. */
  lemma BitAtByte(sb: SuperBlock, disk: Disk, b: nat)
    requires sb.bmapstart as int + b / 8192 < |disk|
    ensures BitAt(sb, disk, b) <==>
      disk[sb.bmapstart as int + b / 8192][b % 8192 / 8] / [1, 2, 4, 8, 16, 32, 64, 128][b % 8] % 2 == 1
  {
    hide Bit, SetBit, ClearBit;
    var i := b % 8192;
    BitPlace(disk[sb.bmapstart as int + b / 8192], i);
    assert i % 8 == b % 8;
  }

  function DinodeAt(sb: SuperBlock, disk: Disk, inum: nat): (d: Dinode)
    requires sb.inodestart as int + inum / 16 < |disk|
    ensures |d.addrs| == 13
  {
    GetDinode(disk[sb.inodestart as int + inum / 16], inum % 16)
  }

  // ---------------------------------------------------------------- one inode

  /**
   The block number in slot i of an inode: the data block of logical block i for
   i < 268, the indirect block for i == 268; 0 is "none".
   */
  function Ptr(disk: Disk, d: Dinode, i: nat): nat
    requires |d.addrs| == 13 && i <= 268
  {
    if i < 12 then d.addrs[i]
    else if i == 268 then d.addrs[12]
    else if 0 < d.addrs[12] < |disk| then Word(disk[d.addrs[12]], i - 12)
    else 0
  }

  /** The slots a file of this size uses: no holes, and an indirect block only when needed. */
  ghost predicate Mapped(d: Dinode, i: int)
  {
    if i == 268 then d.size > 12288 else 0 <= i < 268 && 1024 * i < d.size
  }

  function BlocksFor(size: nat): nat
  {
    (size + 1023) / 1024 + if size > 12288 then 1 else 0
  }

  lemma BlocksForMonotone(a: nat, b: nat)
    requires a <= b
    ensures BlocksFor(a) <= BlocksFor(b)
  {}

  function ByteAt(disk: Disk, d: Dinode, j: nat): byte
    requires |d.addrs| == 13 && j < 274432
  {
    var p := Ptr(disk, d, j / 1024);
    if p < |disk| then disk[p][j % 1024] else 0
  }

  /** The bytes of a file. */
  function Content(disk: Disk, d: Dinode): (c: seq<byte>)
    requires |d.addrs| == 13 && d.size <= 274432
    ensures |c| == d.size
    ensures forall j :: 0 <= j < d.size ==> c[j] == ByteAt(disk, d, j)
  {
    seq(d.size, j requires 0 <= j < d.size => ByteAt(disk, d, j))
  }

  ghost predicate InodeInv(sb: SuperBlock, disk: Disk, d: Dinode)
  {
    |d.addrs| == 13 && d.size <= 274432 &&
    forall i {:trigger Ptr(disk, d, i)} :: 0 <= i <= 268 ==>
      (Ptr(disk, d, i) != 0 <==> Mapped(d, i)) &&
      (Mapped(d, i) ==> Nmeta(sb) <= Ptr(disk, d, i) < sb.size && BitAt(sb, disk, Ptr(disk, d, i)))
  }

  // ---------------------------------------------------------------- the whole file system

  predicate Live(ino: seq<Dinode>, k: int)
  {
    1 <= k < |ino| && ino[k].kind != 0
  }

  /** Slot i of inode k holds a block. */
  ghost predicate Uses(ino: seq<Dinode>, k: int, i: int)
  {
    Live(ino, k) && 0 <= i <= 268 && Mapped(ino[k], i)
  }

  ghost predicate InodesInv(sb: SuperBlock, disk: Disk, ino: seq<Dinode>)
  {
    |ino| == sb.ninodes && (forall k :: 0 <= k < |ino| ==> |ino[k].addrs| == 13) &&
    forall k :: Live(ino, k) ==> InodeInv(sb, disk, ino[k])
  }

  /** No block is held by two slots. */
  ghost predicate Exclusive(disk: Disk, ino: seq<Dinode>)
    requires forall k :: 0 <= k < |ino| ==> |ino[k].addrs| == 13
  {
    forall k, i, k', i' {:trigger Ptr(disk, ino[k], i), Ptr(disk, ino[k'], i')} ::
      Uses(ino, k, i) && Uses(ino, k', i') && Ptr(disk, ino[k], i) == Ptr(disk, ino[k'], i') ==> k == k' && i == i'
  }

  ghost predicate MetaBits(sb: SuperBlock, disk: Disk)
  {
    forall b :: 0 <= b < Nmeta(sb) ==> BitAt(sb, disk, b)
  }

  /** The global invariant of a disk whose inodes are `ino`. */
  ghost predicate FsInv(sb: SuperBlock, disk: Disk, ino: seq<Dinode>)
  {
    GoodSb(sb, |disk|) && InodesInv(sb, disk, ino) && Exclusive(disk, ino) && MetaBits(sb, disk)
  }

  /** The inode table on disk is `ino`, except possibly for inode `but`. */
  ghost predicate OnDisk(sb: SuperBlock, disk: Disk, ino: seq<Dinode>, but: int)
    requires GoodSb(sb, |disk|) && |ino| == sb.ninodes
  {
    forall k :: 0 <= k < |ino| && k != but ==> DinodeAt(sb, disk, k) == ino[k]
  }

  function FreeBlocks(sb: SuperBlock, disk: Disk): set<nat>
  {
    set b | 0 <= b < sb.size && !BitAt(sb, disk, b)
  }

  lemma FreeNonempty(sb: SuperBlock, disk: Disk)
    requires |FreeBlocks(sb, disk)| > 0
    ensures FreeBlocks(sb, disk) != {}
  {}

  lemma SomeFree(sb: SuperBlock, disk: Disk) returns (b: nat)
    requires FreeBlocks(sb, disk) != {}
    ensures b < sb.size && !BitAt(sb, disk, b)
  {
    b :| b in FreeBlocks(sb, disk);
  }

  // ---------------------------------------------------------------- frames

  /** disk' agrees with disk on every block inode d uses. */
  ghost predicate KeepsBlocks(disk: Disk, disk': Disk, d: Dinode)
    requires |d.addrs| == 13
  {
    |disk'| == |disk| &&
    forall i {:trigger Ptr(disk, d, i)} :: 0 <= i <= 268 && Mapped(d, i) && Ptr(disk, d, i) < |disk| ==>
      disk'[Ptr(disk, d, i)] == disk[Ptr(disk, d, i)]
  }

  lemma KeptPtr(sb: SuperBlock, disk: Disk, disk': Disk, d: Dinode, i: nat)
    requires sb.size <= |disk| && InodeInv(sb, disk, d) && KeepsBlocks(disk, disk', d) && i <= 268
    ensures Ptr(disk', d, i) == Ptr(disk, d, i)
  {
    assert Ptr(disk, d, 268) == d.addrs[12];
  }

  /** An inode whose blocks are kept keeps its block map and its content. */
  lemma KeptContent(sb: SuperBlock, disk: Disk, disk': Disk, d: Dinode)
    requires sb.size <= |disk| && InodeInv(sb, disk, d) && KeepsBlocks(disk, disk', d)
    ensures forall i :: 0 <= i <= 268 ==> Ptr(disk', d, i) == Ptr(disk, d, i)
    ensures Content(disk', d) == Content(disk, d)
  {
    forall i | 0 <= i <= 268
      ensures Ptr(disk', d, i) == Ptr(disk, d, i)
    {
      KeptPtr(sb, disk, disk', d, i);
    }
    forall j | 0 <= j < d.size
      ensures ByteAt(disk', d, j) == ByteAt(disk, d, j)
    {
      var p := Ptr(disk, d, j / 1024);
      assert Mapped(d, j / 1024);
    }
  }

  /** Bits only get set. */
  ghost predicate BitsGrow(sb: SuperBlock, disk: Disk, disk': Disk)
  {
    forall b :: 0 <= b < sb.size && BitAt(sb, disk, b) ==> BitAt(sb, disk', b)
  }

  /** Every inode of the table keeps its blocks, except possibly inode `but`. */
  ghost predicate KeepsAll(disk: Disk, disk': Disk, ino: seq<Dinode>, but: int)
    requires forall k :: 0 <= k < |ino| ==> |ino[k].addrs| == 13
  {
    |disk'| == |disk| && forall k :: Live(ino, k) && k != but ==> KeepsBlocks(disk, disk', ino[k])
  }

  /** The invariant survives a change of the disk that keeps all used blocks and all set bits. */
  lemma KeptInv(sb: SuperBlock, disk: Disk, disk': Disk, ino: seq<Dinode>)
    requires FsInv(sb, disk, ino) && KeepsAll(disk, disk', ino, -1) && BitsGrow(sb, disk, disk')
    ensures FsInv(sb, disk', ino)
  {
    forall k | Live(ino, k)
      ensures InodeInv(sb, disk', ino[k])
      ensures forall i :: 0 <= i <= 268 ==> Ptr(disk', ino[k], i) == Ptr(disk, ino[k], i)
    {
      KeptContent(sb, disk, disk', ino[k]);
    }
    forall k, i, k', i' | Uses(ino, k, i) && Uses(ino, k', i') && Ptr(disk', ino[k], i) == Ptr(disk', ino[k'], i')
      ensures k == k' && i == i'
    {
      assert Ptr(disk, ino[k], i) == Ptr(disk, ino[k'], i');
    }
  }

  // ---------------------------------------------------------------- allocation of a block

  ghost function MarkUsed(sb: SuperBlock, disk: Disk, b: nat): (r: Disk)
    requires sb.bmapstart as int + b / 8192 < |disk|
    ensures |r| == |disk|
  {
    disk[sb.bmapstart as int + b / 8192 := SetBit(disk[sb.bmapstart as int + b / 8192], b % 8192)]
  }

  /** balloc's effect: the bit is set and the block zeroed. */
  ghost function AllocDisk(sb: SuperBlock, disk: Disk, b: nat): (r: Disk)
    requires sb.bmapstart as int + b / 8192 < |disk| && b < |disk|
    ensures |r| == |disk|
  {
    MarkUsed(sb, disk, b)[b := ZeroBlock()]
  }

  /** Block b is allocated, zero, and not yet linked into any inode. */
  ghost predicate Fresh(sb: SuperBlock, disk: Disk, ino: seq<Dinode>, b: nat)
    requires forall k :: 0 <= k < |ino| ==> |ino[k].addrs| == 13
  {
    Nmeta(sb) <= b < sb.size <= |disk| && BitAt(sb, disk, b) && disk[b] == ZeroBlock() &&
    forall k, i {:trigger Ptr(disk, ino[k], i)} :: Uses(ino, k, i) ==> Ptr(disk, ino[k], i) != b
  }

  lemma AllocBits(sb: SuperBlock, disk: Disk, b: nat, x: nat)
    requires GoodSb(sb, |disk|) && Nmeta(sb) <= b < sb.size && sb.bmapstart as int + x / 8192 < Nmeta(sb)
    ensures BitAt(sb, AllocDisk(sb, disk, b), x) <==> x == b || BitAt(sb, disk, x)
  {
    if x / 8192 == b / 8192 {
      SetBitBit(disk[sb.bmapstart as int + b / 8192], b % 8192, x % 8192);
    }
  }

  lemma AllocFree(sb: SuperBlock, disk: Disk, b: nat)
    requires GoodSb(sb, |disk|) && Nmeta(sb) <= b < sb.size && !BitAt(sb, disk, b)
    ensures FreeBlocks(sb, AllocDisk(sb, disk, b)) == FreeBlocks(sb, disk) - {b}
    ensures |FreeBlocks(sb, AllocDisk(sb, disk, b))| == |FreeBlocks(sb, disk)| - 1
  {
    forall x | 0 <= x < sb.size
      ensures BitAt(sb, AllocDisk(sb, disk, b), x) <==> x == b || BitAt(sb, disk, x)
    {
      AllocBits(sb, disk, b, x);
    }
    assert b in FreeBlocks(sb, disk);
  }

  /** The first block a file takes for its block numbers is a data block full of zeros. */
  lemma FirstAllocated(sb: SuperBlock, disk: Disk, b: nat, bn: nat)
    requires GoodSb(sb, |disk|) && MetaBits(sb, disk) && 12 <= bn < 268
    requires b < sb.size && !BitAt(sb, disk, b)
    requires |FreeBlocks(sb, disk)| >= 2
    ensures Nmeta(sb) <= b && BitAt(sb, AllocDisk(sb, disk, b), b)
    ensures Word(AllocDisk(sb, disk, b)[b], bn - 12) == 0
    ensures FreeBlocks(sb, AllocDisk(sb, disk, b)) != {}
  {
    AllocBits(sb, disk, b, b);
    AllocFree(sb, disk, b);
    ZeroWord(bn - 12);
  }

  /** A block whose bit is clear is a data block no inode uses. */
  lemma FreeIsUnused(sb: SuperBlock, disk: Disk, ino: seq<Dinode>, b: nat)
    requires FsInv(sb, disk, ino) && b < sb.size && !BitAt(sb, disk, b)
    ensures Nmeta(sb) <= b
    ensures forall k, i {:trigger Ptr(disk, ino[k], i)} :: Uses(ino, k, i) ==> Ptr(disk, ino[k], i) != b
  {}

  /** Allocating a free block disturbs no file and yields a fresh block. */
  lemma AllocInv(sb: SuperBlock, disk: Disk, ino: seq<Dinode>, b: nat)
    requires FsInv(sb, disk, ino) && b < sb.size && !BitAt(sb, disk, b)
    ensures Nmeta(sb) <= b
    ensures FsInv(sb, AllocDisk(sb, disk, b), ino)
    ensures KeepsAll(disk, AllocDisk(sb, disk, b), ino, -1)
    ensures Fresh(sb, AllocDisk(sb, disk, b), ino, b)
  {
    FreeIsUnused(sb, disk, ino, b);
    var disk' := AllocDisk(sb, disk, b);
    forall k | Live(ino, k)
      ensures KeepsBlocks(disk, disk', ino[k])
    {
      assert InodeInv(sb, disk, ino[k]);
      forall i | 0 <= i <= 268 && Mapped(ino[k], i)
        ensures disk'[Ptr(disk, ino[k], i)] == disk[Ptr(disk, ino[k], i)]
      {
        assert Uses(ino, k, i);
      }
    }
    forall x | 0 <= x < sb.size && BitAt(sb, disk, x)
      ensures BitAt(sb, disk', x)
    {
      AllocBits(sb, disk, b, x);
    }
    KeptInv(sb, disk, disk', ino);
    AllocBits(sb, disk, b, b);
    forall k, i | Uses(ino, k, i)
      ensures Ptr(disk', ino[k], i) != b
    {
      KeptContent(sb, disk, disk', ino[k]);
    }
  }

  // ---------------------------------------------------------------- growing one inode

  /**
   Inode k is replaced by d' on disk': slots keep their blocks or receive blocks that
   nobody used, all different.
   */
  ghost predicate Grows(disk: Disk, ino: seq<Dinode>, disk': Disk, k: int, d': Dinode)
    requires 0 <= k < |ino| && |d'.addrs| == 13
    requires forall k :: 0 <= k < |ino| ==> |ino[k].addrs| == 13
  {
    (forall i {:trigger Ptr(disk', d', i)} :: 0 <= i <= 268 && Mapped(d', i) ==>
       (Mapped(ino[k], i) && Ptr(disk', d', i) == Ptr(disk, ino[k], i)) ||
       (forall k2, i2 {:trigger Ptr(disk, ino[k2], i2)} ::
         Uses(ino, k2, i2) ==> Ptr(disk, ino[k2], i2) != Ptr(disk', d', i))) &&
    (forall i, j {:trigger Ptr(disk', d', i), Ptr(disk', d', j)} ::
       0 <= i < j <= 268 && Mapped(d', i) && Mapped(d', j) ==> Ptr(disk', d', i) != Ptr(disk', d', j))
  }

  lemma GrowInv(sb: SuperBlock, disk: Disk, ino: seq<Dinode>, disk': Disk, k: int, d': Dinode)
    requires FsInv(sb, disk, ino) && Live(ino, k) && d'.kind != 0
    requires KeepsAll(disk, disk', ino, k) && BitsGrow(sb, disk, disk')
    requires InodeInv(sb, disk', d') && Grows(disk, ino, disk', k, d')
    ensures FsInv(sb, disk', ino[k := d'])
  {
    var ino' := ino[k := d'];
    forall k2 | Live(ino', k2)
      ensures InodeInv(sb, disk', ino'[k2])
      ensures k2 != k ==> forall i :: 0 <= i <= 268 ==> Ptr(disk', ino'[k2], i) == Ptr(disk, ino[k2], i)
    {
      if k2 != k {
        assert Live(ino, k2);
        KeptContent(sb, disk, disk', ino[k2]);
      }
    }
    forall k1, i1, k2, i2 |
      Uses(ino', k1, i1) && Uses(ino', k2, i2) && Ptr(disk', ino'[k1], i1) == Ptr(disk', ino'[k2], i2)
      ensures k1 == k2 && i1 == i2
    {
      assert k1 != k ==> Uses(ino, k1, i1) && Ptr(disk, ino[k1], i1) == Ptr(disk', ino'[k1], i1);
      assert k2 != k ==> Uses(ino, k2, i2) && Ptr(disk, ino[k2], i2) == Ptr(disk', ino'[k2], i2);
      if k1 == k && k2 != k && Mapped(ino[k], i1) {
        assert Uses(ino, k, i1);
      }
      if k2 == k && k1 != k && Mapped(ino[k], i2) {
        assert Uses(ino, k, i2);
      }
    }
  }

  /** A larger size inside the last block: same blocks, and the old bytes are a prefix. */
  lemma GrowInPlace(sb: SuperBlock, disk: Disk, ino: seq<Dinode>, k: int, ns: u32)
    requires FsInv(sb, disk, ino) && Live(ino, k)
    requires ino[k].size <= ns <= 274432 && (ino[k].size as int + 1023) / 1024 == (ns as int + 1023) / 1024
    ensures FsInv(sb, disk, ino[k := ino[k].(size := ns)])
    ensures Content(disk, ino[k].(size := ns))[..ino[k].size] == Content(disk, ino[k])
  {
    var d, d' := ino[k], ino[k].(size := ns);
    forall i | 0 <= i <= 268
      ensures Mapped(d', i) == Mapped(d, i) && Ptr(disk, d', i) == Ptr(disk, d, i)
    {}
    forall i, j | 0 <= i < j <= 268 && Mapped(d', i) && Mapped(d', j)
      ensures Ptr(disk, d', i) != Ptr(disk, d', j)
    {
      assert Uses(ino, k, i) && Uses(ino, k, j);
    }
    GrowInv(sb, disk, ino, disk, k, d');
    forall j | 0 <= j < d.size
      ensures ByteAt(disk, d', j) == ByteAt(disk, d, j)
    {}
  }

  /** A fresh block becomes the next direct block. */
  lemma LinkDirect(sb: SuperBlock, disk: Disk, ino: seq<Dinode>, k: int, i: nat, b: u32, ns: u32)
    requires FsInv(sb, disk, ino) && Live(ino, k) && Fresh(sb, disk, ino, b)
    requires i < 12 && ino[k].size == 1024 * i < ns <= 1024 * (i + 1)
    ensures var d' := ino[k].(addrs := ino[k].addrs[i := b], size := ns);
      FsInv(sb, disk, ino[k := d']) && Content(disk, d')[..ino[k].size] == Content(disk, ino[k])
  {
    var d := ino[k];
    var d' := d.(addrs := d.addrs[i := b], size := ns);
    assert InodeInv(sb, disk, d);
    forall j | 0 <= j <= 268
      ensures Mapped(d', j) == (j == i || Mapped(d, j))
      ensures Ptr(disk, d', j) == if j == i then b else Ptr(disk, d, j)
    {}
    forall j | 0 <= j <= 268 && Mapped(d, j)
      ensures Uses(ino, k, j)
    {}
    GrowInv(sb, disk, ino, disk, k, d');
    forall j | 0 <= j < d.size
      ensures ByteAt(disk, d', j) == ByteAt(disk, d, j)
    {
      assert j / 1024 < i;
    }
  }

  /** The indirect block of an inode: linked already, or a fresh block about to be. */
  ghost predicate IndirectOf(sb: SuperBlock, disk: Disk, ino: seq<Dinode>, k: int, ib: u32)
    requires 0 <= k < |ino| && forall k :: 0 <= k < |ino| ==> |ino[k].addrs| == 13
  {
    if ino[k].size > 12288 then ib == ino[k].addrs[12] else Fresh(sb, disk, ino, ib)
  }

  /** A fresh block becomes the next entry of the indirect block. */
  ghost function LinkedDisk(disk: Disk, ib: nat, i: nat, b: u32): (r: Disk)
    requires ib < |disk| && 12 <= i < 268
    ensures |r| == |disk|
  {
    disk[ib := PutWord(disk[ib], i - 12, b)]
  }

  lemma LinkIndirectPtr(sb: SuperBlock, disk: Disk, ino: seq<Dinode>, k: int, i: nat, ib: u32, b: u32, ns: u32, j: nat)
    requires FsInv(sb, disk, ino) && Live(ino, k) && IndirectOf(sb, disk, ino, k, ib)
    requires 12 <= i < 268 && ino[k].size == 1024 * i < ns <= 1024 * (i + 1) && ib < |disk| && 0 < ib
    requires j <= 268
    ensures var d' := ino[k].(addrs := ino[k].addrs[12 := ib], size := ns);
      Mapped(d', j) == (j == i || j == 268 || Mapped(ino[k], j)) &&
      Ptr(LinkedDisk(disk, ib, i, b), d', j) == if j == i then b else if j == 268 then ib else Ptr(disk, ino[k], j)
  {
    var d := ino[k];
    assert InodeInv(sb, disk, d);
    assert Ptr(disk, d, 268) == d.addrs[12];
    if 12 <= j < 268 {
      PutWordWord(disk[ib], i - 12, b, j - 12);
      if d.size <= 12288 {
        assert !Mapped(d, 268);
        assert Ptr(disk, d, 268) == 0 == d.addrs[12];
        ZeroWord(j - 12);
      }
    }
  }

  /** The indirect block belongs to no other slot, so storing in it disturbs no other file. */
  lemma IndirectKept(sb: SuperBlock, disk: Disk, ino: seq<Dinode>, k: int, ib: u32, blk: Block)
    requires FsInv(sb, disk, ino) && Live(ino, k) && IndirectOf(sb, disk, ino, k, ib) && 0 < ib < |disk|
    ensures Nmeta(sb) <= ib < sb.size && BitAt(sb, disk, ib)
    ensures KeepsAll(disk, disk[ib := blk], ino, k) && BitsGrow(sb, disk, disk[ib := blk])
    ensures forall i {:trigger Ptr(disk, ino[k], i)} :: 0 <= i < 268 && Mapped(ino[k], i) ==> Ptr(disk, ino[k], i) != ib
  {
    var d := ino[k];
    assert InodeInv(sb, disk, d);
    assert Ptr(disk, d, 268) == d.addrs[12];
    assert d.size > 12288 ==> Uses(ino, k, 268);
    forall k2, j | Uses(ino, k2, j) && (k2 != k || j != 268)
      ensures Ptr(disk, ino[k2], j) != ib
    {}
    forall j | 0 <= j < 268 && Mapped(d, j)
      ensures Uses(ino, k, j)
    {}
    forall k2 | Live(ino, k2) && k2 != k
      ensures KeepsBlocks(disk, disk[ib := blk], ino[k2])
    {
      forall j | 0 <= j <= 268 && Mapped(ino[k2], j)
        ensures Uses(ino, k2, j)
      {}
    }
  }

  lemma LinkIndirectGrows(sb: SuperBlock, disk: Disk, ino: seq<Dinode>, k: int, i: nat, ib: u32, b: u32, ns: u32)
    requires FsInv(sb, disk, ino) && Live(ino, k) && IndirectOf(sb, disk, ino, k, ib) && Fresh(sb, disk, ino, b)
    requires ib != b
    requires 12 <= i < 268 && ino[k].size == 1024 * i < ns <= 1024 * (i + 1) && 0 < ib < |disk|
    ensures var d' := ino[k].(addrs := ino[k].addrs[12 := ib], size := ns);
      var disk' := LinkedDisk(disk, ib, i, b);
      InodeInv(sb, disk', d') && Grows(disk, ino, disk', k, d')
    ensures var d' := ino[k].(addrs := ino[k].addrs[12 := ib], size := ns);
      forall j | 0 <= j < i && Mapped(ino[k], j) ::
        Ptr(LinkedDisk(disk, ib, i, b), d', j) == Ptr(disk, ino[k], j) != ib
  {
    var d := ino[k];
    var d' := d.(addrs := d.addrs[12 := ib], size := ns);
    var disk' := LinkedDisk(disk, ib, i, b);
    IndirectKept(sb, disk, ino, k, ib, PutWord(disk[ib], i - 12, b));
    assert InodeInv(sb, disk, d);
    forall j | 0 <= j <= 268
      ensures Mapped(d', j) == (j == i || j == 268 || Mapped(d, j))
      ensures Ptr(disk', d', j) == if j == i then b else if j == 268 then ib else Ptr(disk, d, j)
    {
      LinkIndirectPtr(sb, disk, ino, k, i, ib, b, ns, j);
    }
    assert InodeInv(sb, disk', d');
    assert Grows(disk, ino, disk', k, d') by {
      forall j | 0 <= j <= 268 && Mapped(d, j)
        ensures Uses(ino, k, j)
      {}
      assert d.size > 12288 ==> Ptr(disk, d, 268) == ib;
    }
  }

  lemma LinkIndirect(sb: SuperBlock, disk: Disk, ino: seq<Dinode>, k: int, i: nat, ib: u32, b: u32, ns: u32)
    requires FsInv(sb, disk, ino) && Live(ino, k) && IndirectOf(sb, disk, ino, k, ib) && Fresh(sb, disk, ino, b)
    requires ib != b
    requires 12 <= i < 268 && ino[k].size == 1024 * i < ns <= 1024 * (i + 1) && 0 < ib < |disk|
    ensures var d' := ino[k].(addrs := ino[k].addrs[12 := ib], size := ns);
      var disk' := LinkedDisk(disk, ib, i, b);
      FsInv(sb, disk', ino[k := d']) && KeepsAll(disk, disk', ino, k) && BitsGrow(sb, disk, disk') &&
      Content(disk', d')[..ino[k].size] == Content(disk, ino[k])
  {
    hide InodeInv, Grows, IndirectOf, Ptr, KeepsAll, BitsGrow, Fresh;
    var d := ino[k];
    var d' := d.(addrs := d.addrs[12 := ib], size := ns);
    var disk' := LinkedDisk(disk, ib, i, b);
    IndirectKept(sb, disk, ino, k, ib, PutWord(disk[ib], i - 12, b));
    LinkIndirectGrows(sb, disk, ino, k, i, ib, b, ns);
    GrowInv(sb, disk, ino, disk', k, d');
    forall j | 0 <= j < d.size
      ensures ByteAt(disk', d', j) == ByteAt(disk, d, j)
    {
      assert j / 1024 < i && Mapped(d, j / 1024);
    }
  }

  // ---------------------------------------------------------------- reading from a data block

  /**
   Where byte j of a file lies: the first twelve blocks of 1024 are those in addrs, and the numbers of the
   others are the four-byte words of block addrs[12], the lowest byte first.
   */
  lemma ContentBytes(sb: SuperBlock, disk: Disk, d: Dinode, j: nat)
    requires InodeInv(sb, disk, d) && sb.size <= |disk| && j < d.size
    ensures j < 12288 ==>
      0 < d.addrs[j / 1024] < |disk| && Content(disk, d)[j] == disk[d.addrs[j / 1024]][j % 1024]
    ensures j >= 12288 ==>
      0 < d.addrs[12] < |disk| &&
      var t, at := disk[d.addrs[12]], (j - 12288) / 1024 * 4;
      var p := t[at] + 0x100 * (t[at + 1] as int) + 0x1_0000 * (t[at + 2] as int) + 0x100_0000 * (t[at + 3] as int);
      0 < p < |disk| && Content(disk, d)[j] == disk[p][j % 1024]
  {
    hide BitAt;
    assert Mapped(d, j / 1024) && Content(disk, d)[j] == ByteAt(disk, d, j);
    if j >= 12288 {
      assert Mapped(d, 268) && Ptr(disk, d, 268) == d.addrs[12];
      assert (j - 12288) / 1024 == j / 1024 - 12;
    }
  }

  /** The slice of a data block that holds bytes off .. off + m of the file. */
  lemma BlockBytes(sb: SuperBlock, disk: Disk, d: Dinode, off: nat, m: nat)
    requires InodeInv(sb, disk, d) && sb.size <= |disk| && m > 0 && off % 1024 + m <= 1024 && off + m <= d.size
    ensures off / 1024 < 268 && 0 < Ptr(disk, d, off / 1024) < |disk|
    ensures disk[Ptr(disk, d, off / 1024)][off % 1024..off % 1024 + m] == Content(disk, d)[off..off + m]
  {
    assert Mapped(d, off / 1024);
    var q := off / 1024;
    var p := Ptr(disk, d, q);
    var x, y := disk[p][off % 1024..off % 1024 + m], Content(disk, d)[off..off + m];
    forall j | 0 <= j < m
      ensures x[j] == y[j]
    {
      var i := off + j;
      assert i / 1024 == q && i % 1024 == off % 1024 + j;
      assert y[j] == Content(disk, d)[i] == ByteAt(disk, d, i);
    }
  }

  // ---------------------------------------------------------------- writing into a data block

  /** What a write of x at offset off <= |c| makes of the bytes c. */
  function Written(c: seq<byte>, off: nat, x: seq<byte>): (r: seq<byte>)
    requires off <= |c|
    ensures |r| == if off + |x| <= |c| then |c| else off + |x|
    ensures forall i :: 0 <= i < |r| ==> r[i] == if off <= i < off + |x| then x[i - off] else c[i]
  {
    c[..off] + x + if off + |x| <= |c| then c[off + |x|..] else []
  }

  lemma WrittenLength(c: seq<byte>, off: nat, x: seq<byte>)
    requires off <= |c|
    ensures |Written(c, off, x)| == if off + |x| <= |c| then |c| else off + |x|
  {}

  lemma WrittenTwice(c: seq<byte>, off: nat, x: seq<byte>, y: seq<byte>)
    requires off <= |c|
    ensures Written(Written(c, off, x), off + |x|, y) == Written(c, off, x + y)
  {}

  /** Changing a data block leaves every block map as it is. */
  lemma DataBlockPtrs(sb: SuperBlock, disk: Disk, ino: seq<Dinode>, k: int, i: nat, blk: Block, k2: int)
    requires FsInv(sb, disk, ino) && Uses(ino, k, i) && i < 268 && Live(ino, k2)
    ensures Nmeta(sb) <= Ptr(disk, ino[k], i) < |disk|
    ensures var disk' := disk[Ptr(disk, ino[k], i) := blk];
      InodeInv(sb, disk', ino[k2]) &&
      (forall j :: 0 <= j <= 268 ==> Ptr(disk', ino[k2], j) == Ptr(disk, ino[k2], j)) &&
      (k2 != k ==> KeepsBlocks(disk, disk', ino[k2]))
  {
    assert InodeInv(sb, disk, ino[k]);
    assert InodeInv(sb, disk, ino[k2]);
    var p := Ptr(disk, ino[k], i);
    var disk' := disk[p := blk];
    assert Ptr(disk, ino[k2], 268) == ino[k2].addrs[12];
    forall j | 0 <= j <= 268 && Mapped(ino[k2], j) && (k2 != k || j != i)
      ensures Ptr(disk, ino[k2], j) != p
    {
      assert Uses(ino, k2, j);
    }
    forall j | 0 <= j <= 268
      ensures Ptr(disk', ino[k2], j) == Ptr(disk, ino[k2], j)
    {}
  }

  lemma DataBlockInv(sb: SuperBlock, disk: Disk, ino: seq<Dinode>, k: int, i: nat, blk: Block)
    requires FsInv(sb, disk, ino) && Uses(ino, k, i) && i < 268
    ensures Nmeta(sb) <= Ptr(disk, ino[k], i) < |disk|
    ensures var disk' := disk[Ptr(disk, ino[k], i) := blk];
      FsInv(sb, disk', ino) && KeepsAll(disk, disk', ino, k) && FreeBlocks(sb, disk') == FreeBlocks(sb, disk)
  {
    DataBlockPtrs(sb, disk, ino, k, i, blk, k);
    var disk' := disk[Ptr(disk, ino[k], i) := blk];
    forall k2 | Live(ino, k2)
      ensures InodeInv(sb, disk', ino[k2])
      ensures forall j :: 0 <= j <= 268 ==> Ptr(disk', ino[k2], j) == Ptr(disk, ino[k2], j)
      ensures k2 != k ==> KeepsBlocks(disk, disk', ino[k2])
    {
      DataBlockPtrs(sb, disk, ino, k, i, blk, k2);
    }
    forall k1, i1, k2, i2 | Uses(ino, k1, i1) && Uses(ino, k2, i2) && Ptr(disk', ino[k1], i1) == Ptr(disk', ino[k2], i2)
      ensures k1 == k2 && i1 == i2
    {
      assert Ptr(disk, ino[k1], i1) == Ptr(disk, ino[k2], i2);
    }
    forall b | 0 <= b < sb.size
      ensures BitAt(sb, disk', b) == BitAt(sb, disk, b)
    {
      assert sb.bmapstart as int + b / 8192 < Nmeta(sb);
    }
  }

  /** Overwriting bytes inside one mapped data block. */
  lemma WriteBlock(sb: SuperBlock, disk: Disk, ino: seq<Dinode>, k: int, off: nat, x: seq<byte>)
    requires FsInv(sb, disk, ino) && Live(ino, k)
    requires off % 1024 + |x| <= 1024 && off + |x| <= ino[k].size && |x| > 0
    ensures Nmeta(sb) <= Ptr(disk, ino[k], off / 1024) < |disk|
    ensures var p := Ptr(disk, ino[k], off / 1024);
      var disk' := disk[p := Splice(disk[p], off % 1024, x)];
      FsInv(sb, disk', ino) && KeepsAll(disk, disk', ino, k) && FreeBlocks(sb, disk') == FreeBlocks(sb, disk) &&
      Content(disk', ino[k]) == Splice(Content(disk, ino[k]), off, x)
  {
    var d, i := ino[k], off / 1024;
    assert Uses(ino, k, i);
    var p := Ptr(disk, d, i);
    DataBlockInv(sb, disk, ino, k, i, Splice(disk[p], off % 1024, x));
    DataBlockPtrs(sb, disk, ino, k, i, Splice(disk[p], off % 1024, x), k);
    var disk' := disk[p := Splice(disk[p], off % 1024, x)];
    forall j | 0 <= j < d.size
      ensures ByteAt(disk', d, j) == Splice(Content(disk, d), off, x)[j]
    {
      assert Uses(ino, k, j / 1024);
      assert j / 1024 != i ==> Ptr(disk, d, j / 1024) != p;
      assert j == j / 1024 * 1024 + j % 1024;
    }
  }

  // ---------------------------------------------------------------- bmap as a relation

  /** Boot block, superblock and inode blocks are untouched. */
  ghost predicate SameHead(sb: SuperBlock, disk: Disk, disk': Disk)
  {
    |disk'| == |disk| && forall x :: 0 <= x < sb.bmapstart && x < |disk| ==> disk'[x] == disk[x]
  }

  /** Every live inode of the table has the same bytes, except possibly inode `but`. */
  ghost predicate SameFiles(disk: Disk, disk': Disk, ino: seq<Dinode>, but: int)
    requires forall k :: 0 <= k < |ino| ==> |ino[k].addrs| == 13
  {
    forall k :: Live(ino, k) && k != but && ino[k].size <= 274432 ==> Content(disk', ino[k]) == Content(disk, ino[k])
  }

  lemma KeptFiles(sb: SuperBlock, disk: Disk, disk': Disk, ino: seq<Dinode>, but: int)
    requires FsInv(sb, disk, ino) && KeepsAll(disk, disk', ino, but)
    ensures SameFiles(disk, disk', ino, but)
  {
    forall k | Live(ino, k) && k != but
      ensures Content(disk', ino[k]) == Content(disk, ino[k])
    {
      KeptContent(sb, disk, disk', ino[k]);
    }
  }

  ghost predicate Takeable(sb: SuperBlock, disk: Disk, b: nat)
  {
    b < sb.size <= |disk| && !BitAt(sb, disk, b) && sb.bmapstart as int + b / 8192 < |disk|
  }

  /** bmap(d, bn) == p: look the block up, or allocate it (and the indirect block if needed). */
  ghost predicate BmapStep(sb: SuperBlock, disk: Disk, d: Dinode, bn: nat, disk': Disk, d': Dinode, p: u32)
    requires |d.addrs| == 13 && |d'.addrs| == 13 && bn < 268
  {
    if Ptr(disk, d, bn) != 0 then
      disk' == disk && d' == d && p == Ptr(disk, d, bn)
    else if bn < 12 then
      Takeable(sb, disk, p) && disk' == AllocDisk(sb, disk, p) && d' == d.(addrs := d.addrs[bn := p])
    else if d.addrs[12] != 0 then
      d' == d && Takeable(sb, disk, p) && d.addrs[12] < |disk| &&
      disk' == LinkedDisk(AllocDisk(sb, disk, p), d.addrs[12], bn, p)
    else
      var ib := d'.addrs[12];
      d' == d.(addrs := d.addrs[12 := ib]) && Takeable(sb, disk, ib) &&
      Takeable(sb, AllocDisk(sb, disk, ib), p) &&
      disk' == LinkedDisk(AllocDisk(sb, AllocDisk(sb, disk, ib), p), ib, bn, p)
  }

  /** An allocated block that is still fresh stays so when another block is allocated. */
  lemma StaysFresh(sb: SuperBlock, disk: Disk, ino: seq<Dinode>, a: nat, b: nat)
    requires FsInv(sb, disk, ino) && Fresh(sb, disk, ino, a) && Takeable(sb, disk, b)
    ensures a != b && Fresh(sb, AllocDisk(sb, disk, b), ino, a)
  {
    AllocInv(sb, disk, ino, b);
    var disk' := AllocDisk(sb, disk, b);
    AllocBits(sb, disk, b, a);
    forall k, i | Uses(ino, k, i)
      ensures Ptr(disk', ino[k], i) != a
    {
      KeptContent(sb, disk, disk', ino[k]);
    }
  }

  lemma AllocHead(sb: SuperBlock, disk: Disk, b: nat)
    requires GoodSb(sb, |disk|) && Nmeta(sb) <= b < sb.size
    ensures SameHead(sb, disk, AllocDisk(sb, disk, b))
  {}

  /** Allocation as one step: invariant, other files, free count and untouched metadata together. */
  lemma AllocStep(sb: SuperBlock, disk: Disk, ino: seq<Dinode>, b: nat)
    requires FsInv(sb, disk, ino) && Takeable(sb, disk, b)
    ensures Nmeta(sb) <= b
    ensures var disk' := AllocDisk(sb, disk, b);
      FsInv(sb, disk', ino) && Fresh(sb, disk', ino, b) &&
      SameHead(sb, disk, disk') && SameFiles(disk, disk', ino, -1) &&
      |FreeBlocks(sb, disk')| == |FreeBlocks(sb, disk)| - 1 &&
      (forall k, i {:trigger Ptr(disk', ino[k], i)} ::
        Live(ino, k) && 0 <= i <= 268 ==> Ptr(disk', ino[k], i) == Ptr(disk, ino[k], i))
  {
    AllocInv(sb, disk, ino, b);
    AllocFree(sb, disk, b);
    AllocHead(sb, disk, b);
    var disk' := AllocDisk(sb, disk, b);
    KeptFiles(sb, disk, disk', ino, -1);
    forall k, i | Live(ino, k) && 0 <= i <= 268
      ensures Ptr(disk', ino[k], i) == Ptr(disk, ino[k], i)
    {
      KeptContent(sb, disk, disk', ino[k]);
    }
  }

  /** The state after bmap, once the file counts as `ns` bytes long. */
  ghost predicate Grown(sb: SuperBlock, disk: Disk, ino: seq<Dinode>, k: int, disk': Disk, d': Dinode)
    requires Live(ino, k) && (forall k :: 0 <= k < |ino| ==> |ino[k].addrs| == 13)
  {
    |d'.addrs| == 13 && ino[k].size <= d'.size <= 274432 &&
    FsInv(sb, disk', ino[k := d']) && SameHead(sb, disk, disk') && SameFiles(disk, disk', ino, k) &&
    Content(disk', d')[..ino[k].size] == Content(disk, ino[k]) &&
    |FreeBlocks(sb, disk')| + BlocksFor(d'.size) == |FreeBlocks(sb, disk)| + BlocksFor(ino[k].size)
  }

  lemma GrowDirect(sb: SuperBlock, disk: Disk, ino: seq<Dinode>, k: int, bn: nat, p: u32, ns: u32)
    requires FsInv(sb, disk, ino) && Live(ino, k) && Takeable(sb, disk, p)
    requires bn < 12 && ino[k].size == 1024 * bn < ns <= 1024 * (bn + 1)
    ensures Grown(sb, disk, ino, k, AllocDisk(sb, disk, p), ino[k].(addrs := ino[k].addrs[bn := p], size := ns))
  {
    AllocStep(sb, disk, ino, p);
    LinkDirect(sb, AllocDisk(sb, disk, p), ino, k, bn, p, ns);
  }

  lemma LinkedStep(sb: SuperBlock, disk: Disk, ino: seq<Dinode>, k: int, bn: nat, ib: u32, p: u32, ns: u32)
    requires FsInv(sb, disk, ino) && Live(ino, k) && IndirectOf(sb, disk, ino, k, ib) && Fresh(sb, disk, ino, p)
    requires ib != p
    requires 12 <= bn < 268 && ino[k].size == 1024 * bn < ns <= 1024 * (bn + 1) && 0 < ib < |disk|
    ensures var disk' := LinkedDisk(disk, ib, bn, p);
      var d' := ino[k].(addrs := ino[k].addrs[12 := ib], size := ns);
      FsInv(sb, disk', ino[k := d']) && SameHead(sb, disk, disk') && SameFiles(disk, disk', ino, k) &&
      Content(disk', d')[..ino[k].size] == Content(disk, ino[k]) && FreeBlocks(sb, disk') == FreeBlocks(sb, disk)
  {
    LinkIndirect(sb, disk, ino, k, bn, ib, p, ns);
    var disk' := LinkedDisk(disk, ib, bn, p);
    KeptFiles(sb, disk, disk', ino, k);
    assert InodeInv(sb, disk, ino[k]);
    assert Ptr(disk, ino[k], 268) == ino[k].addrs[12];
    assert Nmeta(sb) <= ib;
    forall b | 0 <= b < sb.size
      ensures BitAt(sb, disk', b) == BitAt(sb, disk, b)
    {
      assert sb.bmapstart as int + b / 8192 < Nmeta(sb);
    }
  }

  lemma GrowIndirect(sb: SuperBlock, disk: Disk, ino: seq<Dinode>, k: int, bn: nat, p: u32, ns: u32)
    requires FsInv(sb, disk, ino) && Live(ino, k) && Takeable(sb, disk, p)
    requires 12 < bn < 268 && ino[k].size == 1024 * bn < ns <= 1024 * (bn + 1)
    ensures 0 < ino[k].addrs[12] < |disk|
    ensures Grown(sb, disk, ino, k, LinkedDisk(AllocDisk(sb, disk, p), ino[k].addrs[12], bn, p), ino[k].(size := ns))
  {
    hide Content, FreeBlocks, SameHead, SameFiles, Exclusive, MetaBits, BitAt, AllocDisk, LinkedDisk, InodeInv, Ptr,
      Mapped,
      Fresh, GoodSb;
    var ib := ino[k].addrs[12];
    IndirectAddr(sb, disk, ino, k);
    AllocStep(sb, disk, ino, p);
    var disk1 := AllocDisk(sb, disk, p);
    IndirectAddr(sb, disk1, ino, k);
    LinkedStep(sb, disk1, ino, k, bn, ib, p, ns);
    var disk2 := LinkedDisk(disk1, ib, bn, p);
    assert ino[k].(addrs := ino[k].addrs[12 := ib], size := ns) == ino[k].(size := ns);
    StepsTogether(sb, disk, disk1, disk2, ino, k);
  }

  /** A file beyond twelve blocks has its indirect block on the disk. */
  lemma IndirectAddr(sb: SuperBlock, disk: Disk, ino: seq<Dinode>, k: int)
    requires FsInv(sb, disk, ino) && Live(ino, k) && ino[k].size > 12288
    ensures 0 < ino[k].addrs[12] < |disk| && ino[k].size <= 274432 && !Fresh(sb, disk, ino, ino[k].addrs[12])
  {
    assert InodeInv(sb, disk, ino[k]) && Uses(ino, k, 268) && Ptr(disk, ino[k], 268) == ino[k].addrs[12];
  }

  /** Two steps of bmap together: the first keeps all files, the second all but file k. */
  lemma StepsTogether(sb: SuperBlock, a: Disk, b: Disk, c: Disk, ino: seq<Dinode>, k: int)
    requires Live(ino, k) && (forall k :: 0 <= k < |ino| ==> |ino[k].addrs| == 13) && ino[k].size <= 274432
    requires SameHead(sb, a, b) && SameHead(sb, b, c) && SameFiles(a, b, ino, -1) && SameFiles(b, c, ino, k)
    ensures SameHead(sb, a, c) && SameFiles(a, c, ino, k) && Content(b, ino[k]) == Content(a, ino[k])
  {
    hide Content;
  }

  lemma GrowFirstIndirect(sb: SuperBlock, disk: Disk, ino: seq<Dinode>, k: int, ib: u32, p: u32, ns: u32)
    requires FsInv(sb, disk, ino) && Live(ino, k) && Takeable(sb, disk, ib) && Takeable(sb, AllocDisk(sb, disk, ib), p)
    requires ino[k].size == 12288 < ns <= 13312
    ensures Grown(sb, disk, ino, k, LinkedDisk(AllocDisk(sb, AllocDisk(sb, disk, ib), p), ib, 12, p),
                  ino[k].(addrs := ino[k].addrs[12 := ib], size := ns))
  {
    AllocStep(sb, disk, ino, ib);
    var disk1 := AllocDisk(sb, disk, ib);
    AllocStep(sb, disk1, ino, p);
    StaysFresh(sb, disk1, ino, ib, p);
    LinkedStep(sb, AllocDisk(sb, disk1, p), ino, k, 12, ib, p, ns);
  }

  /** After bmap the slot holds the block it returned. */
  lemma BmapPtr(sb: SuperBlock, disk: Disk, d: Dinode, bn: nat, disk': Disk, d': Dinode, p: u32)
    requires |d.addrs| == 13 && |d'.addrs| == 13 && bn < 268 && BmapStep(sb, disk, d, bn, disk', d', p)
    ensures 12 <= bn && Ptr(disk, d, bn) == 0 ==> d'.addrs[12] < |disk|
    ensures bn < 12 || Ptr(disk, d, bn) != 0 || d'.addrs[12] != 0 ==> Ptr(disk', d', bn) == p
  {
    if Ptr(disk, d, bn) == 0 && bn >= 12 {
      var ib := d'.addrs[12];
      var disk1 := if d.addrs[12] != 0 then disk else AllocDisk(sb, disk, ib);
      PutWordWord(AllocDisk(sb, disk1, p)[ib], bn - 12, p, bn - 12);
    }
  }

  /**
   bmap at or before the end of a file: the invariant holds with the file extended to
   any size `ns` that ends in logical block bn, old bytes are a prefix of the new ones,
   every other file and all metadata but the bitmap are untouched, and blocks are
   conserved: what leaves the free set is what the file now holds.
   */
  lemma BmapGrow(sb: SuperBlock, disk: Disk, ino: seq<Dinode>, k: int, bn: nat, disk': Disk, d': Dinode, p: u32,
                 ns: u32)
    requires FsInv(sb, disk, ino) && Live(ino, k) && |d'.addrs| == 13 && bn < 268
    requires BmapStep(sb, disk, ino[k], bn, disk', d', p)
    requires 1024 * bn <= ino[k].size <= ns && 1024 * bn < ns <= 274432
    requires ns == ino[k].size || ns <= 1024 * (bn + 1)
    ensures Grown(sb, disk, ino, k, disk', d'.(size := ns)) && d'.kind == ino[k].kind
    ensures Ptr(disk', d', bn) == p
  {
    var d := ino[k];
    assert InodeInv(sb, disk, d);
    BmapPtr(sb, disk, d, bn, disk', d', p);
    hide Content, FreeBlocks, LinkedDisk, SameFiles, SameHead, Exclusive, MetaBits;
    if Mapped(d, bn) {
      GrowInPlace(sb, disk, ino, k, ns);
      SameRefl(sb, disk, ino, k);
    } else if bn < 12 {
      GrowDirect(sb, disk, ino, k, bn, p, ns);
    } else if bn > 12 {
      assert Mapped(d, 268) && Ptr(disk, d, 268) == d.addrs[12];
      GrowIndirect(sb, disk, ino, k, bn, p, ns);
    } else {
      assert Ptr(disk, d, 268) == d.addrs[12] == 0;
      GrowFirstIndirect(sb, disk, ino, k, d'.addrs[12], p, ns);
      AllocStep(sb, disk, ino, d'.addrs[12]);
    }
  }

  lemma SameRefl(sb: SuperBlock, disk: Disk, ino: seq<Dinode>, k: int)
    requires forall k :: 0 <= k < |ino| ==> |ino[k].addrs| == 13
    ensures SameHead(sb, disk, disk) && SameFiles(disk, disk, ino, k)
  {}

  /** bmap does not look at the file size. */
  lemma BmapStepAnySize(sb: SuperBlock, disk: Disk, d: Dinode, bn: nat, disk': Disk, d': Dinode, p: u32, s: u32)
    requires |d.addrs| == 13 && |d'.addrs| == 13 && bn < 268 && BmapStep(sb, disk, d, bn, disk', d', p)
    ensures BmapStep(sb, disk, d.(size := s), bn, disk', d'.(size := s), p)
  {
    assert Ptr(disk, d.(size := s), bn) == Ptr(disk, d, bn);
  }

  /** An unmapped block at the end of a file needs as many free blocks as the file will grow by. */
  lemma NeedBlocks(sb: SuperBlock, disk: Disk, d: Dinode, bn: nat, ns: nat)
    requires InodeInv(sb, disk, d) && bn < 268 && Ptr(disk, d, bn) == 0 && 1024 * bn <= d.size && 1024 * bn < ns
    ensures BlocksFor(ns) - BlocksFor(d.size) >= if bn >= 12 && d.addrs[12] == 0 then 2 else 1
  {
    assert !Mapped(d, bn) && Ptr(disk, d, 268) == d.addrs[12];
  }

  lemma SpliceIsWritten(c: seq<byte>, c': seq<byte>, off: nat, x: seq<byte>)
    requires off <= |c| <= |c'| && c'[..|c|] == c && |c'| == if off + |x| <= |c| then |c| else off + |x|
    ensures Splice(c', off, x) == Written(c, off, x)
  {
    forall i | 0 <= i < |c'|
      ensures Splice(c', off, x)[i] == Written(c, off, x)[i]
    {
      assert i < |c| ==> c'[i] == c[i];
    }
  }

  /** Dinodes live below the bitmap, so they survive whatever leaves that part alone. */
  lemma HeadOnDisk(sb: SuperBlock, disk: Disk, disk': Disk, ino: seq<Dinode>, k: int, d: Dinode)
    requires GoodSb(sb, |disk|) && |ino| == sb.ninodes && 0 <= k < |ino|
    requires OnDisk(sb, disk, ino, k) && SameHead(sb, disk, disk')
    ensures OnDisk(sb, disk', ino[k := d], k)
    ensures DinodeAt(sb, disk', k) == DinodeAt(sb, disk, k)
  {
    forall j | 0 <= j < |ino|
      ensures DinodeAt(sb, disk', j) == DinodeAt(sb, disk, j)
    {
      assert sb.inodestart as int + j / 16 < sb.bmapstart;
    }
  }

  lemma SameFilesTrans(a: Disk, b: Disk, c: Disk, ino: seq<Dinode>, k: int, d: Dinode)
    requires 0 <= k < |ino| && |d.addrs| == 13 && forall k :: 0 <= k < |ino| ==> |ino[k].addrs| == 13
    requires SameFiles(a, b, ino, k) && SameFiles(b, c, ino[k := d], k)
    ensures SameFiles(a, c, ino, k)
  {
    forall j | Live(ino, j) && j != k && ino[j].size <= 274432
      ensures Content(c, ino[j]) == Content(a, ino[j])
    {
      assert Live(ino[k := d], j) && ino[k := d][j] == ino[j];
    }
  }

  lemma SameHeadTrans(sb: SuperBlock, a: Disk, b: Disk, c: Disk)
    requires SameHead(sb, a, b) && SameHead(sb, b, c)
    ensures SameHead(sb, a, c)
  {}
}

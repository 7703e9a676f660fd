/**
 The image builder (mkfs/mkfs.c): the image it writes satisfies the kernel's disk
 invariant, and what it appends is what the kernel reads.
 */
module Mkfs {
  import opened Layout
  import opened DiskModel
  import opened Fs
  import opened Directory

  const NINODES: u32 := 200

  function Total2Sb(total: u32): SuperBlock
    requires total as int > 15 + (total as int + 8191) / 8192
  {
    SuperBlock(FSMAGIC, total, total - (15 + (total as int + 8191) / 8192), NINODES, 0, 0, 2, 15)
  }

  /** Block b has its bit set exactly below `freeblock`, to the end of the last byte; free blocks are zero. */
  ghost predicate Frontier(sb: SuperBlock, img: Disk, freeblock: nat)
  {
    Nmeta(sb) <= freeblock <= sb.size <= |img| &&
    (forall b :: 0 <= b < freeblock ==> BitAt(sb, img, b)) &&
    (forall b :: freeblock <= b < ScanEnd(sb.size) ==> !BitAt(sb, img, b)) &&
    (forall b :: freeblock <= b < sb.size ==> img[b] == ZeroBlock())
  }

  /** Every bit of the scan lies in a bitmap block. */
  lemma InBitmap(sb: SuperBlock, x: nat)
    requires x < ScanEnd(sb.size)
    ensures sb.bmapstart as int + x / 8192 < Nmeta(sb)
  {
    var bytes, n := (sb.size as int + 7) / 8, (sb.size as int + 8191) / 8192;
    assert sb.size <= 8192 * n && bytes <= 1024 * n;
    assert x < 8 * bytes <= 8192 * n;
  }

  /** An image without a free block: the scan finds the block after the last one, unless the bytes end there too. */
  lemma FullImage(sb: SuperBlock, img: Disk)
    requires Frontier(sb, img, sb.size)
    ensures FreeBlocks(sb, img) == {} && (OnlyBeyond(sb, img) <==> sb.size % 8 != 0)
    ensures forall x: nat :: Lowest(sb, img, x) <==> sb.size % 8 != 0 && x == sb.size
  {
    if sb.size % 8 == 0 {
      NoneBeyond(sb, img);
    } else {
      assert sb.size < ScanEnd(sb.size) && !BitAt(sb, img, sb.size);
    }
  }

  /** Taking the next block is what the kernel's allocator would do to the image. */
  lemma NextIsAlloc(sb: SuperBlock, img: Disk, freeblock: nat)
    requires GoodSb(sb, |img|) && Frontier(sb, img, freeblock) && freeblock < sb.size
    ensures sb.bmapstart as int + freeblock / 8192 < |img|
    ensures MarkUsed(sb, img, freeblock) == AllocDisk(sb, img, freeblock) && Takeable(sb, img, freeblock)
    ensures Frontier(sb, AllocDisk(sb, img, freeblock), freeblock + 1)
  {
    forall x | 0 <= x < ScanEnd(sb.size)
      ensures BitAt(sb, AllocDisk(sb, img, freeblock), x) <==> x == freeblock || BitAt(sb, img, x)
    {
      InBitmap(sb, x);
      AllocBits(sb, img, freeblock, x);
    }
    assert sb.bmapstart as int + freeblock / 8192 < Nmeta(sb);
  }

  /** A write to an allocated data block, or below the bitmap, keeps the frontier. */
  lemma FrontierKept(sb: SuperBlock, img: Disk, freeblock: nat, b: nat, blk: Block)
    requires GoodSb(sb, |img|) && Frontier(sb, img, freeblock) && b < freeblock
    requires b < sb.bmapstart || Nmeta(sb) <= b
    ensures Frontier(sb, img[b := blk], freeblock)
  {
    var img' := img[b := blk];
    forall x | 0 <= x < ScanEnd(sb.size)
      ensures BitAt(sb, img', x) == BitAt(sb, img, x)
    {
      InBitmap(sb, x);
      var at := sb.bmapstart as int + x / 8192;
      assert at < Nmeta(sb) && img'[at] == img[at];
    }
    forall x | freeblock <= x < sb.size
      ensures img'[x] == ZeroBlock()
    {
      assert img'[x] == img[x];
    }
  }

  lemma MarkedBits(sb: SuperBlock, img: Disk, i: nat, b: nat)
    requires GoodSb(sb, |img|) && i < sb.size && b < ScanEnd(sb.size)
    ensures sb.bmapstart as int + i / 8192 < |img|
    ensures BitAt(sb, MarkUsed(sb, img, i), b) <==> b == i || BitAt(sb, img, b)
  {
    assert sb.bmapstart as int + i / 8192 < Nmeta(sb);
    if b / 8192 == i / 8192 {
      SetBitBit(img[sb.bmapstart as int + i / 8192], i % 8192, b % 8192);
    }
  }

  lemma EmptyContent(img: Disk, d: Dinode)
    requires |d.addrs| == 13 && d.size == 0
    ensures Content(img, d) == []
  {}

  lemma LengthOf(img: Disk, d: Dinode)
    requires |d.addrs| == 13 && d.size <= 274432
    ensures |Content(img, d)| == d.size
  {}

  lemma RootFits()
    ensures BlocksFor(0) == 0 && BlocksFor(16) == 1 && BlocksFor(32) == 1
  {}

  /** The two entries of the root directory as a map. */
  lemma RootDirectory(img: Disk, ino: seq<Dinode>, dot: seq<byte>, dotdot: seq<byte>)
    requires |dot| == 14 && |dotdot| == 14 && Canon(dot) == [46] && Canon(dotdot) == [46, 46]
    requires IsDir(ino, 1) && |ino[1].addrs| == 13 && ino[1].size <= 274432
    requires Content(img, ino[1]) == EncDirent(1, dot) + EncDirent(1, dotdot)
    ensures DirOk(Content(img, ino[1]), ino) && DirOf(img, ino, 1) == map[[46] := 1, [46, 46] := 1]
  {
    var c0: seq<byte>, c1, c2 := [], EncDirent(1, dot), Content(img, ino[1]);
    assert Written(c0, 0, c1) == c1;
    assert Written(c1, 16, EncDirent(1, dotdot)) == c2;
    hide Content, Canon, EncDirent, EntryInum, EntryName;
    AddedMap(c0, 0, 1, dot, c1, 0);
    AddedUnique(c0, 0, 1, dot, c1);
    AddedEntry(c0, 0, 1, dot, c1, 0);
    AddedMap(c1, 1, 1, dotdot, c2, 0);
    AddedUnique(c1, 1, 1, dotdot, c2);
    forall i | 0 <= i < Entries(c2) && EntryInum(c2, i) != 0
      ensures EntryInum(c2, i) == 1
    {
      AddedEntry(c1, 1, 1, dotdot, c2, i);
    }
    AddedEntry(c1, 1, 1, dotdot, c2, 0);
  }

  function Dots(n: nat): (r: seq<byte>)
    requires n <= 14
    ensures |r| == 14
  {
    seq(14, i => if i < n then 46 else 0)
  }

  /** The root directory's 32 bytes. */
  lemma DotBytes()
    ensures EncDirent(1, Dots(1)) + EncDirent(1, Dots(2)) ==
      [1, 0, 46] + seq(13, i => 0) + [1, 0, 46, 46] + seq(12, i => 0)
  {}

  /** The root's dinode as it lies on disk. */
  lemma RootInode(x: seq<byte>, b: u32)
    requires |x| == 64 && DecDinode(x) == Dinode(2, 0, 0, 1, 32, [b] + seq(12, i => 0))
    ensures x ==
      [2, 0, 0, 0, 0, 0, 1, 0, 32, 0, 0, 0, b % 0x100, b / 0x100 % 0x100, b / 0x1_0000 % 0x100, b / 0x100_0000] +
      seq(48, i => 0)
  {
    var d := DecDinode(x);
    hide DecDinode;
    DinodeBytes(x, d);
    assert d.addrs[0] == b;
    forall i | 16 <= i < 64
      ensures x[i] == 0
    {
      var k := (i - 12) / 4;
      assert d.addrs[k] == 0 && i == 12 + 4 * k + i % 4;
    }
  }

  class Builder {
    var img: seq<Block>
    var sb: SuperBlock
    var freeblock: nat
    var freeinode: nat
    ghost var ino: seq<Dinode>

    /** The image under construction, with inode `but` possibly not yet written back. */
    ghost predicate Building(but: int)
      reads this
    {
      FsInv(sb, img, ino) && OnDisk(sb, img, ino, but) && Frontier(sb, img, freeblock) &&
      1 <= freeinode <= |ino| && (forall k :: freeinode <= k < |ino| ==> ino[k].kind == 0) &&
      sb.magic == FSMAGIC && img[1] == Splice(ZeroBlock(), 0, EncSuper(sb))
    }

    ghost predicate Valid()
      reads this
    {
      Building(-1)
    }

    /**
     main: an image of `total` blocks with an empty root directory that knows itself as
     "." and "..".
     */
    constructor (total: u32)
      requires total as int > 15 + (total as int + 8191) / 8192
      ensures Valid() && sb == Total2Sb(total) && |img| == total && DecSuper(img[1]) == sb
      ensures DirsOk(img, ino) && DirOf(img, ino, ROOTINO) == map[[46] := 1, [46, 46] := 1]
      ensures freeblock == Nmeta(sb) + 1 && freeinode == 2
      ensures var nmeta := 15 + (total as int + 8191) / 8192;
        var fields := [0x10203040, total as int, total as int - nmeta, 200, 0, 0, 2, 15];
        (forall k :: 0 <= k < 8 ==>
          img[1][4 * k] == fields[k] % 0x100 && img[1][4 * k + 1] == fields[k] / 0x100 % 0x100 &&
          img[1][4 * k + 2] == fields[k] / 0x1_0000 % 0x100 && img[1][4 * k + 3] == fields[k] / 0x100_0000) &&
        forall i :: 32 <= i < 1024 ==> img[1][i] == 0
      ensures var nmeta := 15 + (total as int + 8191) / 8192;
        img[2][64..128] ==
        [2, 0, 0, 0, 0, 0, 1, 0, 32, 0, 0, 0,
         nmeta % 0x100, nmeta / 0x100 % 0x100, nmeta / 0x1_0000 % 0x100, nmeta / 0x100_0000] + seq(48, i => 0) &&
        img[nmeta][..32] == [1, 0, 46] + seq(13, i => 0) + [1, 0, 46, 46] + seq(12, i => 0)
    {
      hide Frontier, BitAt, DirOf, DecSuper, EncSuper, Content, Exclusive, InodesInv;
      img := seq(total, i => ZeroBlock());
      sb := Total2Sb(total);
      freeblock := 15 + (total as int + 8191) / 8192;
      freeinode := 1;
      ino := seq(200, i => ZeroDinode());
      new;
      img := img[1 := Splice(ZeroBlock(), 0, EncSuper(sb))];
      SuperRoundTrip(sb);
      MarkMeta();
      EmptyTree();
      MakeRoot();
      SuperBytes(sb);
      RootOnDisk();
    }

    /** The root inode and its block in the image. */
    lemma RootOnDisk()
      requires Valid() && freeblock == Nmeta(sb) + 1 && sb.inodestart == 2 && IsDir(ino, 1)
      requires ino[1] == Dinode(2, 0, 0, 1, 32, ino[1].addrs) && |ino[1].addrs| == 13
      ensures Nmeta(sb) < |img| && img[Nmeta(sb)][..32] == Content(img, ino[1])
      ensures Nmeta(sb) < 0x1_0000_0000
      ensures var b := Nmeta(sb);
        img[2][64..128] ==
        [2, 0, 0, 0, 0, 0, 1, 0, 32, 0, 0, 0, b % 0x100, b / 0x100 % 0x100, b / 0x1_0000 % 0x100, b / 0x100_0000] +
        seq(48, i => 0)
    {
      RootBlock();
      var x := img[2][64..128];
      assert DinodeAt(sb, img, 1) == ino[1] == DecDinode(x);
      RootInode(x, Nmeta(sb));
    }

    /** The root's one block is the first after the metadata: no other data block is taken yet. */
    lemma RootBlock()
      requires Valid() && freeblock == Nmeta(sb) + 1 && IsDir(ino, 1) && |ino[1].addrs| == 13 && ino[1].size == 32
      ensures ino[1].addrs == [Nmeta(sb)] + seq(12, i => 0)
      ensures Nmeta(sb) < |img| && img[Nmeta(sb)][..32] == Content(img, ino[1])
    {
      var d := ino[1];
      assert InodeInv(sb, img, d);
      assert Mapped(d, 0) && Ptr(img, d, 0) == d.addrs[0];
      assert !Mapped(d, 268) && Ptr(img, d, 268) == d.addrs[12];
      forall i | 1 <= i < 12
        ensures d.addrs[i] == 0
      {
        assert !Mapped(d, i) && Ptr(img, d, i) == d.addrs[i];
      }
    }

    /** mkfs.c:216-229: the root directory. */
    method MakeRoot()
      requires Valid() && freeinode == 1 && |ino| == 200 && freeblock < sb.size
      modifies this`img, this`freeblock, this`freeinode, this`ino
      ensures Valid() && |img| == |old(img)| && freeblock == old(freeblock) + 1 && freeinode == 2
      ensures DirsOk(img, ino) && DirOf(img, ino, ROOTINO) == map[[46] := 1, [46, 46] := 1]
      ensures ino[1] == Dinode(2, 0, 0, 1, 32, ino[1].addrs) && |ino[1].addrs| == 13
      ensures Content(img, ino[1]) == [1, 0, 46] + seq(13, i => 0) + [1, 0, 46, 46] + seq(12, i => 0)
    {
      hide Building, Content, DirOk, BlocksFor, SameFiles, Frontier, EncDirent, Dots;
      ghost var sb0, img0 := sb, img;
      ValidShape();
      var root := Ialloc(T_DIR);
      RootFits();
      EmptyContent(img, ino[root]);
      var dot := DotField(1);
      Iappend(root, EncDirent(1, dot));
      ValidShape();
      LengthOf(img, ino[root]);
      var dotdot := DotField(2);
      Iappend(root, EncDirent(1, dotdot));
      ValidShape();
      LengthOf(img, ino[root]);
      RootDirectory(img, ino, dot, dotdot);
      DotBytes();
      OnlyRoot();
    }

    lemma ValidShape()
      requires Valid()
      ensures freeblock <= sb.size && 1 <= freeinode <= |ino| && (freeinode < |ino| ==> ino[freeinode].kind == 0)
      ensures forall j :: 0 <= j < |ino| ==> |ino[j].addrs| == 13
      ensures forall j :: Live(ino, j) ==> ino[j].size <= 274432
    {
      forall j | Live(ino, j)
        ensures ino[j].size <= 274432
      {
        assert InodeInv(sb, img, ino[j]);
      }
    }

    /** mkfs.c:221-222, 226-228: a cleared name field with n dots. */
    method DotField(n: nat) returns (field: seq<byte>)
      requires n <= 2
      ensures field == Dots(n) && Canon(field) == seq(n, i => 46)
    {
      field := Dots(n);
      CanonIs(field, n);
      assert field[..n] == seq(n, i => 46);
    }

    /** mkfs.c:212-213: mark the metadata blocks. */
    method MarkMeta()
      requires GoodSb(sb, |img|) && freeblock == Nmeta(sb) && |img| == sb.size && 1 < sb.bmapstart
      requires forall b :: 0 <= b < |img| && b != 1 ==> img[b] == ZeroBlock()
      modifies this`img
      ensures |img| == |old(img)| && Frontier(sb, img, freeblock)
      ensures forall b :: 0 <= b < sb.bmapstart ==> img[b] == old(img)[b]
    {
      forall b | 0 <= b < ScanEnd(sb.size)
        ensures !BitAt(sb, img, b)
      {
        InBitmap(sb, b);
        assert 1 < sb.bmapstart as int + b / 8192 < Nmeta(sb);
        ZeroBits(b % 8192 % 8);
      }
      for i := 0 to freeblock
        invariant |img| == |old(img)|
        invariant forall b :: 0 <= b < ScanEnd(sb.size) ==> (BitAt(sb, img, b) <==> b < i)
        invariant forall b :: 0 <= b < |img| && (b < sb.bmapstart || Nmeta(sb) <= b) ==> img[b] == old(img)[b]
      {
        ghost var img0 := img;
        assert sb.bmapstart as int + i / 8192 < Nmeta(sb);
        BallocMark(i);
        forall b | 0 <= b < ScanEnd(sb.size)
          ensures BitAt(sb, img, b) <==> b < i + 1
        {
          MarkedBits(sb, img0, i, b);
        }
      }
    }

    /** An image whose inode blocks are zero has no inode, so the invariant holds. */
    lemma EmptyTree()
      requires GoodSb(sb, |img|) && Frontier(sb, img, freeblock) && freeblock == Nmeta(sb) && sb.inodestart == 2
      requires sb.ninodes == 200 && sb.bmapstart == 15
      requires forall b :: 2 <= b < sb.bmapstart ==> img[b] == ZeroBlock()
      requires ino == seq(200, i => ZeroDinode()) && freeinode == 1 && sb.magic == FSMAGIC
      requires img[1] == Splice(ZeroBlock(), 0, EncSuper(sb))
      ensures Valid()
    {
      forall k | 0 <= k < 200
        ensures DinodeAt(sb, img, k) == ino[k]
      {
        ZeroInodeBlock(k % 16);
        assert img[2 + k / 16] == ZeroBlock();
      }
      assert forall k :: !Live(ino, k);
    }

    /** No other inode than the root is in use. */
    lemma OnlyRoot()
      requires Valid() && IsDir(ino, 1) && freeinode == 2 && |ino[1].addrs| == 13 && ino[1].size <= 274432
      requires DirOk(Content(img, ino[1]), ino)
      ensures DirsOk(img, ino)
    {
      assert forall k :: Live(ino, k) ==> k == 1;
    }

    /** next_block */
    method NextBlock() returns (b: u32)
      requires GoodSb(sb, |img|) && Frontier(sb, img, freeblock) && freeblock < sb.size
      modifies this`img, this`freeblock
      ensures b == old(freeblock) && freeblock == old(freeblock) + 1
      ensures Takeable(sb, old(img), b) && img == AllocDisk(sb, old(img), b) && Frontier(sb, img, freeblock)
    {
      NextIsAlloc(sb, img, freeblock);
      b := freeblock;
      freeblock := freeblock + 1;
      BallocMark(b);
    }

    /** balloc_mark */
    method BallocMark(b: nat)
      requires sb.bmapstart as int + b / 8192 < |img|
      modifies this`img
      ensures img == MarkUsed(sb, old(img), b)
    {
      var at := sb.bmapstart as int + b / 8192;
      img := img[at := SetBit(img[at], b % 8192)];
    }

    /** winode */
    method Winode(inum: nat, d: Dinode)
      requires sb.inodestart as int + inum / 16 < |img| && |d.addrs| == 13
      modifies this`img
      ensures img == PutInode(sb, old(img), inum, d)
    {
      var bn := sb.inodestart as int + inum / 16;
      img := img[bn := PutDinode(img[bn], inum % 16, d)];
    }

    /** ialloc */
    method Ialloc(kind: u16) returns (inum: nat)
      requires Valid() && kind != 0 && freeinode < |ino|
      modifies this`img, this`freeinode, this`ino
      ensures Valid() && inum == old(freeinode) && freeinode == old(freeinode) + 1
      ensures ino == old(ino)[inum := ZeroDinode().(kind := kind, nlink := 1)]
      ensures SameFiles(old(img), img, old(ino), -1) && |img| == |old(img)|
    {
      hide Frontier, FsInv, OnDisk, SameFiles, PutInode, GoodSb, ZeroDinode, Splice, EncSuper;
      SuperGood(sb, img, ino);
      inum := freeinode;
      freeinode := freeinode + 1;
      var d := EmptyDinode(kind).(nlink := 1);
      Claimed(sb, img, ino, inum, d);
      InodeBlockKept(inum, d);
      Winode(inum, d);
      ino := ino[inum := d];
    }

    lemma InodeBlockKept(inum: nat, d: Dinode)
      requires GoodSb(sb, |img|) && Frontier(sb, img, freeblock) && inum < sb.ninodes && |d.addrs| == 13
      ensures sb.inodestart as int + inum / 16 < |img|
      ensures Frontier(sb, PutInode(sb, img, inum, d), freeblock) && PutInode(sb, img, inum, d)[1] == img[1]
    {
      var b := sb.inodestart as int + inum / 16;
      FrontierKept(sb, img, freeblock, b, PutDinode(img[b], inum % 16, d));
    }

    /** mkfs.c:127-145: the block of logical block fbn, appended if it is not there yet. */
    method MapBlock(d: Dinode, fbn: nat) returns (x: u32, d': Dinode)
      requires GoodSb(sb, |img|) && Frontier(sb, img, freeblock) && fbn < 268 && |d.addrs| == 13
      requires d.addrs[12] != 0 ==> Nmeta(sb) <= d.addrs[12] < freeblock
      requires Ptr(img, d, fbn) == 0 ==> freeblock + (if fbn >= 12 && d.addrs[12] == 0 then 2 else 1) <= sb.size
      modifies this`img, this`freeblock
      ensures |d'.addrs| == 13 && BmapStep(sb, old(img), d, fbn, img, d', x)
      ensures Frontier(sb, img, freeblock) && img[1] == old(img)[1]
    {
      hide Frontier, BitAt, SetBit, Word, PutWord;
      d' := d;
      FrontierBound();
      if fbn < 12 {
        if d'.addrs[fbn] == 0 {
          var b := NextBlock();
          d' := d'.(addrs := d'.addrs[fbn := b]);
        }
        x := d'.addrs[fbn];
      } else {
        if d'.addrs[12] == 0 {
          var b := NextBlock();
          FrontierBound();
          d' := d'.(addrs := d'.addrs[12 := b]);
          ZeroWord(fbn - 12);
        }
        x := MapIndirect(d'.addrs[12], fbn);
      }
    }

    lemma FrontierBound()
      requires GoodSb(sb, |img|) && Frontier(sb, img, freeblock)
      ensures Nmeta(sb) <= freeblock <= sb.size <= |img|
    {}

    /** mkfs.c:137-144 */
    method MapIndirect(ib: nat, fbn: nat) returns (x: u32)
      requires GoodSb(sb, |img|) && Frontier(sb, img, freeblock) && 12 <= fbn < 268
      requires Nmeta(sb) <= ib < freeblock <= |img|
      requires Word(img[ib], fbn - 12) == 0 ==> freeblock < sb.size
      modifies this`img, this`freeblock
      ensures Frontier(sb, img, freeblock) && |img| == |old(img)| && img[1] == old(img)[1]
      ensures var w := Word(old(img)[ib], fbn - 12);
        if w != 0 then x == w && img == old(img) && freeblock == old(freeblock)
        else Takeable(sb, old(img), x) && img == LinkedDisk(AllocDisk(sb, old(img), x), ib, fbn, x) &&
             freeblock == old(freeblock) + 1
    {
      hide Frontier, BitAt, SetBit, Word, PutWord;
      x := Word(img[ib], fbn - 12);
      if x == 0 {
        var b := NextBlock();
        FrontierBound();
        FrontierKept(sb, img, freeblock, ib, PutWord(img[ib], fbn - 12, b));
        assert img[ib] == old(img)[ib];
        img := img[ib := PutWord(img[ib], fbn - 12, b)];
        x := b;
      }
    }

    /** In the middle of iappend: `d` is the inode held in memory, `off` bytes long by now. */
    ghost predicate Appending(inum: nat, d: Dinode, off: nat)
      reads this
    {
      Building(inum) && Live(ino, inum) && |d.addrs| == 13 && off <= 274432 && ino[inum] == d.(size := off)
    }

    /** mkfs.c:123-145: map the next chunk's block; the file counts as reaching off + m. */
    method AppendMap(inum: nat, d: Dinode, off: nat, m: nat) returns (b: u32, d': Dinode)
      requires Appending(inum, d, off) && 0 < m && off % 1024 + m <= 1024 && off + m <= 274432
      requires freeblock + BlocksFor(off + m) - BlocksFor(off) <= sb.size
      modifies this`img, this`freeblock, this`ino
      ensures Appending(inum, d', off + m) && d'.size == d.size && b == Ptr(img, ino[inum], off / 1024)
      ensures Grown(sb, old(img), old(ino), inum, img, ino[inum]) && Attrs(ino[inum]) == Attrs(old(ino)[inum])
      ensures |ino| == |old(ino)| && ino == old(ino)[inum := ino[inum]]
    {
      hide Frontier, BitAt, Content, FreeBlocks, Exclusive, MetaBits, InodeInv, Ptr, Mapped, BmapStep, BlocksFor,
        SameFiles, DinodeAt, SameHead;
      ghost var img0, ino0 := img, ino;
      ghost var ns: u32 := off + m;
      FreeCount(sb, img, freeblock);
      BmapReady(sb, img, ino[inum], d, off / 1024, ns);
      AddrBelow(inum, d, off);
      b, d' := MapBlock(d, off / 1024);
      BmapSize(sb, img0, d, off / 1024, img, d', b, off);
      BmapStepAnySize(sb, img0, d, off / 1024, img, d', b, off);
      BmapGrow(sb, img0, ino0, inum, off / 1024, img, d'.(size := off), b, ns);
      HeadOnDisk(sb, img0, img, ino0, inum, d'.(size := ns));
      ino := ino[inum := d'.(size := ns)];
      BmapSize(sb, img0, ino0[inum], off / 1024, img, d'.(size := off), b, ns);
    }

    /** mkfs.c:147-153: store the chunk. */
    method AppendStore(inum: nat, off: nat, x: seq<byte>, b: u32)
      requires Building(inum) && Live(ino, inum) && 0 < |x| && off % 1024 + |x| <= 1024 && off + |x| <= ino[inum].size
      requires |ino[inum].addrs| == 13 && off / 1024 < 268 && b == Ptr(img, ino[inum], off / 1024)
      modifies this`img
      ensures Building(inum) && ino[inum].size <= 274432
      ensures Content(img, ino[inum]) == Splice(old(Content(img, ino[inum])), off, x)
      ensures (forall j :: 0 <= j < |ino| ==> |ino[j].addrs| == 13) && SameFiles(old(img), img, ino, inum)
      ensures SameHead(sb, old(img), img)
      ensures FreeBlocks(sb, img) == old(FreeBlocks(sb, img))
    {
      hide Frontier, BitAt, Content, FreeBlocks, Exclusive, MetaBits, Ptr, Mapped, SameFiles, DinodeAt;
      ghost var img0 := img;
      assert InodeInv(sb, img, ino[inum]);
      hide InodeInv;
      DataBlockBelow(inum, off, |x|);
      WriteBlock(sb, img, ino, inum, off, x);
      FrontierKept(sb, img, freeblock, b, Splice(img[b], off % 1024, x));
      img := img[b := Splice(img[b], off % 1024, x)];
      KeptFiles(sb, img0, img, ino, inum);
      HeadOnDisk(sb, img0, img, ino, inum, ino[inum]);
      assert ino[inum := ino[inum]] == ino;
    }

    /** mkfs.c:123-157: one round of the loop, the chunk x at the end of the file. */
    method AppendChunk(inum: nat, d: Dinode, off: nat, x: seq<byte>) returns (d': Dinode)
      requires Appending(inum, d, off) && 0 < |x| && off % 1024 + |x| <= 1024 && off + |x| <= 274432
      requires freeblock + BlocksFor(off + |x|) - BlocksFor(off) <= sb.size
      modifies this`img, this`freeblock, this`ino
      ensures Appending(inum, d', off + |x|) && d'.size == d.size
      ensures Progress(sb, old(img), old(ino), inum, img, ino, off, x)
    {
      hide Frontier, BitAt, Content, FreeBlocks, Exclusive, MetaBits, InodeInv, Ptr, Mapped, BlocksFor, SameFiles,
        DinodeAt, SameHead, OnDisk;
      ghost var img0, ino0 := img, ino;
      var b;
      b, d' := AppendMap(inum, d, off, |x|);
      ghost var img1 := img;
      AppendStore(inum, off, x, b);
      ContentLengths(img0, ino0[inum], img1, ino[inum]);
      SpliceIsWritten(Content(img0, ino0[inum]), Content(img1, ino[inum]), off, x);
      SameFilesTrans(img0, img1, img, ino0, inum, ino[inum]);
      SameHeadTrans(sb, img0, img1, img);
    }

    lemma ContentLengths(a: Disk, d: Dinode, b: Disk, e: Dinode)
      requires |d.addrs| == 13 && |e.addrs| == 13 && d.size <= 274432 && e.size <= 274432
      ensures |Content(a, d)| == d.size && |Content(b, e)| == e.size
    {}

    /** The indirect block, if any, is an allocated data block. */
    lemma AddrBelow(inum: nat, d: Dinode, off: nat)
      requires Appending(inum, d, off)
      ensures d.addrs[12] != 0 ==> Nmeta(sb) <= d.addrs[12] < freeblock
    {
      var e := ino[inum];
      assert InodeInv(sb, img, e);
      assert Ptr(img, e, 268) == d.addrs[12];
    }

    /** The block of a byte of the file is an allocated data block. */
    lemma DataBlockBelow(inum: nat, off: nat, m: nat)
      requires GoodSb(sb, |img|) && FsInv(sb, img, ino) && Frontier(sb, img, freeblock) && Live(ino, inum) && 0 < m
      requires off + m <= ino[inum].size
      ensures off / 1024 < 268 && Nmeta(sb) <= Ptr(img, ino[inum], off / 1024) < freeblock
    {
      assert InodeInv(sb, img, ino[inum]);
      assert Mapped(ino[inum], off / 1024);
    }

    /** iappend: the bytes go to the end of the file, and nowhere else. */
    method Iappend(inum: nat, xp: seq<byte>)
      requires Valid() && Live(ino, inum) && ino[inum].size as int + |xp| <= 274432
      requires freeblock + BlocksFor(ino[inum].size as int + |xp|) - BlocksFor(ino[inum].size) <= sb.size
      modifies this`img, this`freeblock, this`ino
      ensures Valid() && |ino| == |old(ino)| && ino == old(ino)[inum := ino[inum]]
      ensures Attrs(ino[inum]) == Attrs(old(ino)[inum])
      ensures Content(img, ino[inum]) == old(Content(img, ino[inum])) + xp
      ensures SameFiles(old(img), img, old(ino), inum) && |img| == |old(img)|
      ensures freeblock == old(freeblock) + BlocksFor(ino[inum].size) - BlocksFor(old(ino[inum].size))
    {
      hide Frontier, BitAt, FreeBlocks, Exclusive, MetaBits, BlocksFor, DinodeAt;
      ghost var img0, ino0 := img, ino;
      assert InodeInv(sb, img, ino[inum]);
      FreeCount(sb, img, freeblock);
      var d := ReadInode(inum);
      var off: nat := d.size;
      ProgressStart(sb, img, ino, inum, off);
      hide InodeInv, Content, SameFiles, Progress, InodesInv;
      var n := 0;
      assert xp[..0] == [];
      while n < |xp|
        invariant n <= |xp| && Appending(inum, d, off) && off == ino0[inum].size as int + n
        invariant Progress(sb, img0, ino0, inum, img, ino, ino0[inum].size, xp[..n])
        invariant |FreeBlocks(sb, img)| == sb.size - freeblock
        decreases |xp| - n
      {
        var m := ChunkLen(off, |xp| - n);
        ghost var img1, ino1 := img, ino;
        ProgressSize(sb, img0, ino0, inum, img1, ino1, ino0[inum].size, xp[..n]);
        BlocksForMonotone(off + m, ino0[inum].size as int + |xp|);
        d := AppendChunk(inum, d, off, xp[n..n + m]);
        ProgressTrans(sb, img0, ino0, inum, img1, ino1, img, ino, ino0[inum].size, xp[..n], xp[n..n + m]);
        assert xp[..n] + xp[n..n + m] == xp[..n + m];
        FreeCount(sb, img, freeblock);
        off := off + m;
        n := n + m;
      }
      assert xp[..n] == xp;
      ProgressSize(sb, img0, ino0, inum, img, ino, ino0[inum].size, xp);
      AppendedBytes(img0, ino0, inum, xp);
      d := d.(size := off);
      ghost var img2 := img;
      WriteBack(inum, d);
      FinalFiles(img0, img2, img, ino0, inum, d);
    }

    lemma AppendedBytes(img0: Disk, ino0: seq<Dinode>, inum: nat, xp: seq<byte>)
      requires Progress(sb, img0, ino0, inum, img, ino, if inum < |ino0| then ino0[inum].size else 0, xp)
      requires inum < |ino0|
      ensures |ino| == |ino0| && |ino0[inum].addrs| == 13 && |ino[inum].addrs| == 13 && ino[inum].size <= 274432
      ensures ino0[inum].size <= 274432
      ensures ino == ino0[inum := ino[inum]] && Attrs(ino[inum]) == Attrs(ino0[inum])
      ensures Content(img, ino[inum]) == Content(img0, ino0[inum]) + xp
      ensures (forall j :: 0 <= j < |ino0| ==> |ino0[j].addrs| == 13) && SameFiles(img0, img, ino0, inum)
      ensures |img| == |img0|
    {}

    /** rinode */
    method ReadInode(inum: nat) returns (d: Dinode)
      requires Valid() && inum < |ino|
      ensures d == ino[inum]
    {
      PutInodeTable(sb, img, inum, ZeroDinode(), inum);
      d := GetDinode(img[sb.inodestart as int + inum / 16], inum % 16);
      assert d == DinodeAt(sb, img, inum);
    }

    /** mkfs.c:160-161 */
    method WriteBack(inum: nat, d: Dinode)
      requires Building(inum) && Live(ino, inum) && ino[inum] == d && |d.addrs| == 13
      modifies this`img
      ensures Valid() && SameFiles(old(img), img, ino, -1) && |img| == |old(img)|
    {
      hide Frontier, BitAt, Exclusive, MetaBits, InodeInv, SameFiles, DinodeAt;
      PutInodeKeeps(sb, img, ino, inum, d);
      forall j | 0 <= j < |ino|
        ensures DinodeAt(sb, PutInode(sb, img, inum, d), j) == ino[j]
      {
        PutInodeTable(sb, img, inum, d, j);
      }
      InodeBlockKept(inum, d);
      Winode(inum, d);
    }
  }

  /** How many blocks are left. */
  lemma FreeCount(sb: SuperBlock, img: Disk, freeblock: nat)
    requires Frontier(sb, img, freeblock)
    ensures |FreeBlocks(sb, img)| == sb.size - freeblock
  {
    assert FreeBlocks(sb, img) == Range(freeblock, sb.size);
  }

  ghost function Range(lo: nat, hi: nat): (r: set<nat>)
    requires lo <= hi
    ensures |r| == hi - lo && forall b :: b in r <==> lo <= b < hi
    decreases hi - lo
  {
    if lo == hi then {} else {lo} + Range(lo + 1, hi)
  }
}

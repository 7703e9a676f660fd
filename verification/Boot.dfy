/**
 From the image builder to the running kernel: the built image is booted, and the
 kernel reads back what was appended (mkfs/mkfs.c with kernel/fs/fs.c).
 */
module Boot {
  import opened Layout
  import opened DiskModel
  import opened Virtio
  import opened Bio
  import opened Fs
  import opened Directory
  import opened Mkfs
  import opened SysFile

  /** The image as the device sees it. */
  function SectorsOf(img: Disk): (r: seq<Sector>)
    ensures |r| == 2 * |img|
  {
    seq(2 * |img|, i requires 0 <= i < 2 * |img| => if i % 2 == 0 then img[i / 2][..512] else img[i / 2][512..])
  }

  lemma SectorsRoundTrip(img: Disk)
    ensures Blocks(SectorsOf(img)) == img
  {
    forall b | 0 <= b < |img|
      ensures Blocks(SectorsOf(img))[b] == img[b]
    {
      SectorsOfBlock(img, b);
      hide Join, SectorsOf;
    }
  }

  lemma SectorsOfBlock(img: Disk, b: nat)
    requires b < |img|
    ensures Join(SectorsOf(img)[2 * b], SectorsOf(img)[2 * b + 1]) == img[b]
  {
    HalvesJoined(img[b]);
    hide Join;
    assert 2 * b % 2 == 0 && 2 * b / 2 == b && (2 * b + 1) % 2 == 1 && (2 * b + 1) / 2 == b;
  }

  lemma HalvesJoined(x: Block)
    ensures Join(x[..512], x[512..]) == x
  {
    assert x[..512] + x[512..] == x;
  }

  /** main.c: binit, virtio_disk_init and fsinit on a built image. */
  method BootImage(b: Builder) returns (fs: FileSystem)
    requires b.Valid()
    ensures fs.Valid() && fs.bc.disk == b.img && fs.ino == b.ino && fs.sb == b.sb && fs.bc.dev == 1
    ensures fresh(fs) && fresh(fs.bc) && fresh(fs.bc.vd)
    ensures forall s :: 0 <= s < 50 ==> fs.icache[s].ref == 0
  {
    hide FsInv, OnDisk, Frontier, Blocks, DecSuper, EncSuper;
    BuiltSuper(b);
    SectorsRoundTrip(b.img);
    var vd := new VirtioDisk(30, SectorsOf(b.img));
    var bc := new BufferCache(vd, ROOTDEV);
    assert bc.Refs()[0] == 0 && bc.Refs()[1] == 0;
    fs := new FileSystem.Fsinit(bc, b.ino);
  }

  lemma BuiltSuper(b: Builder)
    requires b.Valid()
    ensures 1 < |b.img| && DecSuper(b.img[1]) == b.sb && b.sb.magic == FSMAGIC
  {
    SuperRoundTrip(b.sb);
  }

  /** All open-file tables of a booted image are empty and exact. */
  method BootTables(b: Builder) returns (t: FileTable)
    requires b.Valid() && DirsOk(b.img, b.ino)
    ensures t.Valid() && t.fs.bc.disk == b.img && t.fs.ino == b.ino
  {
    hide FsInv, OnDisk, Frontier, Content, DirOk;
    var fs := BootImage(b);
    t := new FileTable(fs);
  }

  // ---------------------------------------------------------------- balloc on a full disk

  /**
   balloc on a booted image without a free block: it panics for want of blocks exactly when
   the size is a multiple of 8, and otherwise marks the block after the last one.
   */
  method BallocOnFull(b: Builder) returns (r: Allocation)
    requires b.Valid() && b.freeblock == b.sb.size
    ensures r ==
      if b.sb.size % 8 == 0 then OutOfBlocks
      else if b.sb.size < |b.img| then Got(b.sb.size) else Absent(b.sb.size)
  {
    hide FsInv, OnDisk, Frontier, Content, DirOk, BufferCache.Valid, BufferCache.ValidExcept, OnlyBeyond, Lowest;
    var fs := BootImage(b);
    FullImage(b.sb, b.img);
    fs.ValidIsReady();
    r := fs.Balloc(ROOTDEV);
  }

  /**
   mkfs with 1001 blocks, then files until the last block is taken: three of the largest size and
   one of 176 blocks.
   */
  method FillImage() returns (b: Builder)
    ensures b.Valid() && b.sb.size == |b.img| == b.freeblock == 1001
  {
    hide Frontier, OnDisk, FsInv, Content, SameFiles, Builder.Building;
    b := new Builder(1001);
    for i := 0 to 3
      invariant b.Valid() && b.sb == Total2Sb(1001) && |b.img| == 1001
      invariant b.freeinode == 2 + i && b.freeblock == 17 + 269 * i
    {
      AppendFile(b, 274432);
    }
    AppendFile(b, 180224);
  }

  /** A new file of n zero bytes. */
  method AppendFile(b: Builder, n: nat)
    requires b.Valid() && b.freeinode < 200 && b.sb.ninodes == 200 && n <= 274432
    requires b.freeblock + BlocksFor(n) <= b.sb.size
    modifies b`img, b`freeblock, b`freeinode, b`ino
    ensures b.Valid() && |b.img| == |old(b.img)| && b.freeinode == old(b.freeinode) + 1
    ensures b.freeblock == old(b.freeblock) + BlocksFor(n)
  {
    hide Frontier, OnDisk, Content, SameFiles, BlocksFor, Exclusive, MetaBits, InodeInv;
    RootFits();
    var inum := b.Ialloc(T_FILE);
    b.Iappend(inum, seq(n, i => 0));
  }

  /** A full image of 1001 blocks makes balloc mark block 1001, which the device does not have. */
  method BallocPastTheEnd() returns (r: Allocation)
    ensures r == Absent(1001)
  {
    var b := FillImage();
    r := BallocOnFull(b);
  }

  // ---------------------------------------------------------------- mkfs and the kernel's read path

  function Concat(pieces: seq<seq<byte>>): seq<byte>
  {
    if pieces == [] then [] else Concat(pieces[..|pieces| - 1]) + pieces[|pieces| - 1]
  }

  /** Any number of iappend calls on one file. */
  method AppendAll(b: Builder, inum: nat, pieces: seq<seq<byte>>)
    requires b.Valid() && Live(b.ino, inum) && |b.ino[inum].addrs| == 13
    requires b.ino[inum].size as int + |Concat(pieces)| <= 274432
    requires
      b.freeblock + BlocksFor(b.ino[inum].size as int + |Concat(pieces)|) - BlocksFor(b.ino[inum].size) <= b.sb.size
    modifies b`img, b`freeblock, b`ino
    ensures b.Valid() && |b.ino| == |old(b.ino)| && Live(b.ino, inum) && |b.ino[inum].addrs| == 13
    ensures b.ino[inum].size <= 274432
    ensures Content(b.img, b.ino[inum]) == old(Content(b.img, b.ino[inum])) + Concat(pieces)
    ensures SameFiles(old(b.img), b.img, old(b.ino), inum)
  {
    hide Frontier, OnDisk, BlocksFor, FsInv, Content, SameFiles, Builder.Building;
    ghost var c0 := Content(b.img, b.ino[inum]);
    LengthOf(b.img, b.ino[inum]);
    b.ValidShape();
    ghost var img0, ino0 := b.img, b.ino;
    SameRefl(b.sb, b.img, b.ino, inum);
    assert c0 + [] == c0;
    assert pieces[..0] == [];
    for i := 0 to |pieces|
      invariant b.Valid() && |b.ino| == |ino0| && Live(b.ino, inum) && |b.ino[inum].addrs| == 13
      invariant b.ino[inum].size <= 274432
      invariant b.ino == ino0[inum := b.ino[inum]] && b.sb == old(b.sb)
      invariant Content(b.img, b.ino[inum]) == c0 + Concat(pieces[..i])
      invariant b.ino[inum].size as int == ino0[inum].size as int + |Concat(pieces[..i])|
      invariant b.freeblock == old(b.freeblock) + BlocksFor(b.ino[inum].size) - BlocksFor(ino0[inum].size)
      invariant SameFiles(img0, b.img, ino0, inum)
    {
      ConcatStep(pieces, i);
      ConcatGrows(pieces, i + 1);
      BlocksForMonotone(b.ino[inum].size as int + |pieces[i]|, ino0[inum].size as int + |Concat(pieces)|);
      ghost var img1, ino1 := b.img, b.ino;
      b.Iappend(inum, pieces[i]);
      b.ValidShape();
      SameFilesTrans(img0, img1, b.img, ino0, inum, ino1[inum]);
      LengthOf(b.img, b.ino[inum]);
      assert (c0 + Concat(pieces[..i])) + pieces[i] == c0 + (Concat(pieces[..i]) + pieces[i]);
    }
    assert pieces[..|pieces|] == pieces;
  }

  lemma ConcatStep(pieces: seq<seq<byte>>, i: nat)
    requires i < |pieces|
    ensures Concat(pieces[..i + 1]) == Concat(pieces[..i]) + pieces[i]
  {
    assert pieces[..i + 1][..i] == pieces[..i];
  }

  lemma {:induction false} ConcatGrows(pieces: seq<seq<byte>>, i: nat)
    requires i <= |pieces|
    ensures |Concat(pieces[..i])| <= |Concat(pieces)|
    decreases |pieces| - i
  {
    if i == |pieces| {
      assert pieces[..i] == pieces;
    } else {
      ConcatStep(pieces, i);
      ConcatGrows(pieces, i + 1);
    }
  }

  /**
   Append to a file of an image, boot the image, and read the file with iget, ilock and
   readi: the kernel returns exactly the old bytes and then all the appended ones.
   */
  method AppendThenRead(b: Builder, inum: nat, pieces: seq<seq<byte>>) returns (data: seq<byte>)
    requires b.Valid() && Live(b.ino, inum) && |b.ino[inum].addrs| == 13
    requires b.ino[inum].size as int + |Concat(pieces)| <= 274432
    requires
      b.freeblock + BlocksFor(b.ino[inum].size as int + |Concat(pieces)|) - BlocksFor(b.ino[inum].size) <= b.sb.size
    modifies b`img, b`freeblock, b`ino
    ensures data == old(Content(b.img, b.ino[inum])) + Concat(pieces)
  {
    hide Frontier, OnDisk, BlocksFor, FsInv, Content, SameFiles, Builder.Building, IcacheOk, FileSystem.Valid;
    AppendAll(b, inum, pieces);
    var fs := BootImage(b);
    assert IRefs(fs.icache)[0] == 0;
    var ip := fs.Iget(ROOTDEV, inum);
    fs.Ilock(ip);
    var n;
    n, data := fs.Readi(ip, 0, fs.icache[ip].di.size);
    LengthOf(fs.bc.disk, fs.icache[ip].di);
    assert data == Content(fs.bc.disk, fs.icache[ip].di);
  }
}

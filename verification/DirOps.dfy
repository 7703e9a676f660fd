/**
 dirlookup and dirlink: the directory operations of the kernel, proved against the
 map view of directories (kernel/fs/fs.c:488-518, 582-612).
 */
module DirOps {
  import opened Wrappers
  import opened Layout
  import opened DiskModel
  import opened Bio
  import opened Fs
  import opened Directory

  /** The locked directory dp as a map. */
  ghost function DirAt(fs: FileSystem, dp: nat): map<Name, u16>
    requires dp < |fs.icache| && |fs.icache[dp].di.addrs| == 13 && fs.icache[dp].di.size <= 274432
    reads fs, fs.bc
  {
    DirMap(Content(fs.bc.disk, fs.icache[dp].di), 0)
  }

  /** The bytes of directory dp. */
  ghost function DirBytes(fs: FileSystem, dp: nat): seq<byte>
    requires dp < |fs.icache| && |fs.icache[dp].di.addrs| == 13 && fs.icache[dp].di.size <= 274432
    reads fs, fs.bc
  {
    Content(fs.bc.disk, fs.icache[dp].di)
  }

  /** dp is a locked directory of a well-formed tree. */
  ghost predicate AtDir(fs: FileSystem, dp: nat)
    reads fs, fs.bc, fs.bc.vd
  {
    fs.Valid() && fs.Locked(dp) && DirsOk(fs.bc.disk, fs.ino) && IsDir(fs.ino, fs.icache[dp].inum) &&
    fs.icache[dp].di == fs.ino[fs.icache[dp].inum] &&
    |fs.icache[dp].di.addrs| == 13 && fs.icache[dp].di.size <= 274432
  }

  lemma AtDirIntro(fs: FileSystem, dp: nat)
    requires fs.Valid() && fs.Locked(dp) && DirsOk(fs.bc.disk, fs.ino) && fs.icache[dp].di.kind == T_DIR
    ensures AtDir(fs, dp)
  {}

  /** fs.c:495-496, 595-596: reading entry i of a directory always yields 16 bytes. */
  method ReadEntry(fs: FileSystem, dp: nat, i: nat) returns (de: seq<byte>)
    requires AtDir(fs, dp) && 16 * i < fs.icache[dp].di.size
    modifies fs`icache, fs.bc, fs.bc.vd
    ensures AtDir(fs, dp) && fs.bc.disk == old(fs.bc.disk) && fs.icache == old(fs.icache)
    ensures fs.bc.Refs() == old(fs.bc.Refs())
    ensures i < Entries(Content(fs.bc.disk, fs.icache[dp].di))
    ensures |de| == 16 && Half(de, 0) == EntryInum(Content(fs.bc.disk, fs.icache[dp].di), i)
    ensures Canon(de[2..]) == EntryName(Content(fs.bc.disk, fs.icache[dp].di), i)
  {
    hide BufferCache.Valid, BufferCache.ValidExcept, FsInv, OnDisk, UniqueNames, Canon, FileSystem.Valid;
    ghost var c := Content(fs.bc.disk, fs.icache[dp].di);
    assert DirOk(c, fs.ino);
    assert |c| % 16 == 0;
    var r, x := fs.Readi(dp, 16 * i, 16);
    de := x;
    assert de == c[16 * i..16 * i + 16];
    assert de[2..] == c[16 * i + 2..16 * i + 16];
  }

  /** fs.c:513: the new reference leaves the directory locked, even if it is to the directory itself. */
  method Refer(fs: FileSystem, dp: nat, inum: nat) returns (ip: nat)
    requires AtDir(fs, dp) && CanGet(fs.icache, inum) && Live(fs.ino, inum)
    modifies fs`icache
    ensures AtDir(fs, dp) && fs.icache[dp].di == old(fs.icache[dp].di) && SameNames(old(fs.icache), fs.icache)
    ensures ip < 50 && fs.icache[ip].inum == inum
    ensures IRefs(fs.icache) == IRefs(old(fs.icache))[ip := IRefs(old(fs.icache))[ip] + 1]
  {
    hide BufferCache.Valid, BufferCache.ValidExcept, FsInv, OnDisk, DirsOk;
    ghost var d := fs.icache[dp];
    ip := fs.Iget(ROOTDEV, inum);
    assert fs.icache[dp].valid && fs.icache[dp].inum == d.inum;
  }

  /**
   dirlookup: a new reference to the inode the name maps to, or none if the name is
   not in the directory.
   */
  method Dirlookup(fs: FileSystem, dp: nat, name: seq<byte>) returns (r: Option<nat>, off: nat)
    requires AtDir(fs, dp) && |name| == 14
    requires Canon(name) in DirAt(fs, dp) ==> CanGet(fs.icache, DirAt(fs, dp)[Canon(name)])
    modifies fs`icache, fs.bc, fs.bc.vd
    ensures AtDir(fs, dp) && fs.bc.disk == old(fs.bc.disk) && fs.bc.Refs() == old(fs.bc.Refs())
    ensures fs.icache[dp].di == old(fs.icache[dp].di) && SameNames(old(fs.icache), fs.icache)
    ensures r.None? <==> Canon(name) !in DirAt(fs, dp)
    ensures r.None? ==> fs.icache == old(fs.icache)
    ensures r.Some? ==> r.value < 50 && fs.icache[r.value].inum == DirAt(fs, dp)[Canon(name)]
    ensures r.Some? ==> IRefs(fs.icache) == IRefs(old(fs.icache))[r.value := IRefs(old(fs.icache))[r.value] + 1]
  {
    hide BufferCache.Valid, BufferCache.ValidExcept, FsInv, OnDisk, UniqueNames, Canon, Content, DirOk, IcacheOk,
      FileSystem.Valid, DirMap, EntryInum, EntryName;
    ghost var c := Content(fs.bc.disk, fs.icache[dp].di);
    off := 0;
    ghost var i := 0;
    while off < fs.icache[dp].di.size
      invariant off == 16 * i && i <= Entries(c)
      invariant AtDir(fs, dp) && fs.bc.disk == old(fs.bc.disk) && fs.icache == old(fs.icache)
      invariant fs.bc.Refs() == old(fs.bc.Refs())
      invariant Canon(name) in DirMap(c, 0) <==> Canon(name) in DirMap(c, i)
      invariant Canon(name) in DirMap(c, 0) ==> DirMap(c, 0)[Canon(name)] == DirMap(c, i)[Canon(name)]
      decreases fs.icache[dp].di.size - off
    {
      var de := ReadEntry(fs, dp, off / 16);
      ScanStep(c, i, Canon(name));
      if Half(de, 0) != 0 {
        var same := NamesMatch(de[2..], name);
        if same {
          DirTargets(fs.bc.disk, fs.ino, fs.icache[dp].inum, Canon(name));
          var ip := Refer(fs, dp, Half(de, 0));
          r := Some(ip);
          return;
        }
      }
      off := off + 16;
      i := i + 1;
    }
    DirLength(fs, dp);
    ScanStep(c, i, Canon(name));
    r := None;
  }

  // ---------------------------------------------------------------- dirlink

  /** There is an empty slot, or the directory may still grow by one entry. */
  ghost predicate RoomForEntry(fs: FileSystem, dp: nat)
    requires AtDir(fs, dp)
    reads fs, fs.bc, fs.bc.vd
  {
    var c := Content(fs.bc.disk, fs.icache[dp].di);
    (exists i :: 0 <= i < Entries(c) && EntryInum(c, i) == 0) ||
    (|c| + 16 <= 274432 && BlocksFor(|c| + 16) - BlocksFor(|c|) <= |FreeBlocks(fs.sb, fs.bc.disk)|)
  }

  /** fs.c:594-599: the first empty slot, or the end of the directory. */
  method FindSlot(fs: FileSystem, dp: nat) returns (i: nat)
    requires AtDir(fs, dp)
    modifies fs`icache, fs.bc, fs.bc.vd
    ensures AtDir(fs, dp) && fs.bc.disk == old(fs.bc.disk) && fs.icache == old(fs.icache)
    ensures fs.bc.Refs() == old(fs.bc.Refs())
    ensures var c := Content(fs.bc.disk, fs.icache[dp].di);
      i <= Entries(c) && (i < Entries(c) ==> EntryInum(c, i) == 0) && (forall j :: 0 <= j < i ==> EntryInum(c, j) != 0)
  {
    hide BufferCache.Valid, BufferCache.ValidExcept, FsInv, OnDisk, UniqueNames, Canon, Content, DirOk,
      FileSystem.Valid;
    ghost var c := Content(fs.bc.disk, fs.icache[dp].di);
    i := 0;
    while 16 * i < fs.icache[dp].di.size
      invariant i <= Entries(c) && forall j :: 0 <= j < i ==> EntryInum(c, j) != 0
      invariant AtDir(fs, dp) && fs.bc.disk == old(fs.bc.disk) && fs.icache == old(fs.icache)
      invariant fs.bc.Refs() == old(fs.bc.Refs())
      decreases fs.icache[dp].di.size - 16 * i
    {
      var de := ReadEntry(fs, dp, i);
      if Half(de, 0) == 0 {
        return;
      }
      i := i + 1;
    }
    DirLength(fs, dp);
  }

  lemma DirLength(fs: FileSystem, dp: nat)
    requires AtDir(fs, dp)
    ensures |Content(fs.bc.disk, fs.icache[dp].di)| == fs.icache[dp].di.size
    ensures fs.icache[dp].di.size % 16 == 0
  {
    assert DirOk(Content(fs.bc.disk, fs.icache[dp].di), fs.ino);
  }

  /** Linking a new name keeps the tree well formed and updates one directory's map. */
  lemma Linked(disk: Disk, ino: seq<Dinode>, k: nat, i: nat, inum: u16, field: seq<byte>, disk': Disk,
               ino': seq<Dinode>)
    requires DirsOk(disk, ino) && IsDir(ino, k) && Live(ino, inum)
    requires (forall j :: 0 <= j < |ino| ==> |ino[j].addrs| == 13)
    requires |ino'| == |ino| && |ino'[k].addrs| == 13 && ino'[k].size <= 274432 && ino' == ino[k := ino'[k]]
    requires ino'[k].kind == T_DIR
    requires EntryAdded(Content(disk, ino[k]), i, inum, field, Content(disk', ino'[k]))
    requires Canon(field) !in DirOf(disk, ino, k) && SameFiles(disk, disk', ino, k)
    ensures DirsOk(disk', ino') && DirOf(disk', ino', k) == DirOf(disk, ino, k)[Canon(field) := inum]
  {
    hide Canon, Content, EntryInum, EntryName;
    var c, c' := Content(disk, ino[k]), Content(disk', ino'[k]);
    AddedMap(c, i, inum, field, c', 0);
    AddedUnique(c, i, inum, field, c');
    forall j | Live(ino', j)
      ensures Live(ino, j)
    {}
    forall j | Live(ino, j)
      ensures Live(ino', j)
    {}
    AddedEntry(c, i, inum, field, c', 0);
    forall j | 0 <= j < Entries(c') && EntryInum(c', j) != 0
      ensures Live(ino', EntryInum(c', j))
    {
      AddedEntry(c, i, inum, field, c', j);
    }
    assert DirOk(c', ino');
    forall j | IsDir(ino', j) && j != k
      ensures DirOk(Content(disk', ino'[j]), ino')
    {
      assert IsDir(ino, j) && DirOk(Content(disk, ino[j]), ino);
    }
  }

  /**
   dirlink: -1 and nothing changed iff the name is present; otherwise the directory's
   map gains exactly the new name, and no other file changes.
   */
  method Dirlink(fs: FileSystem, dp: nat, name: seq<byte>, inum: u32) returns (r: int, ghost i: nat)
    requires AtDir(fs, dp) && |name| == 14 && Live(fs.ino, inum)
    requires Canon(name) in DirAt(fs, dp) ==> CanGet(fs.icache, DirAt(fs, dp)[Canon(name)])
    requires Canon(name) !in DirAt(fs, dp) ==> RoomForEntry(fs, dp)
    modifies fs`icache, fs`ino, fs.bc, fs.bc.vd
    ensures AtDir(fs, dp) && fs.bc.Refs() == old(fs.bc.Refs())
    ensures IRefs(fs.icache) == IRefs(old(fs.icache)) && SameNames(old(fs.icache), fs.icache)
    ensures r == -1 <==> Canon(name) in old(DirAt(fs, dp))
    ensures r == -1 ==> fs.bc.disk == old(fs.bc.disk) && fs.ino == old(fs.ino)
    ensures r != -1 ==> r == 0 && DirAt(fs, dp) == old(DirAt(fs, dp))[Canon(name) := inum]
    ensures r != -1 ==> EntryLeft(old(DirBytes(fs, dp)), i, inum, Canon(name), DirBytes(fs, dp))
    ensures var k := fs.icache[dp].inum;
      k == old(fs.icache[dp].inum) &&
      (r != -1 ==>
         fs.ino == old(fs.ino)[k := fs.ino[k]] && SameFiles(old(fs.bc.disk), fs.bc.disk, old(fs.ino), k) &&
         Attrs(fs.ino[k]) == Attrs(old(fs.ino)[k]) && fs.ino[k].size >= old(fs.ino)[k].size)
  {
    hide BufferCache.Valid, BufferCache.ValidExcept, OnDisk, UniqueNames, Canon, Content, DirOk, DirMap, FsInv,
      SameFiles, EntryLeft, Padded;
    ghost var k := fs.icache[dp].inum;
    var found, off := Dirlookup(fs, dp, name);
    if found.Some? {
      fs.Iput(found.value);
      r, i := -1, 0;
      return;
    }
    var slot := FindSlot(fs, dp);
    i := slot;
    var field := FillName(name);
    AppendEntry(fs, dp, slot, inum, field);
    r := 0;
  }

  /** fs.c:605-609: write the entry; a short write is impossible. */
  method AppendEntry(fs: FileSystem, dp: nat, i: nat, inum: u32, field: seq<byte>)
    requires AtDir(fs, dp) && |field| == 14 && Live(fs.ino, inum) && RoomForEntry(fs, dp)
    requires var c := Content(fs.bc.disk, fs.icache[dp].di);
      i <= Entries(c) && (i < Entries(c) ==> EntryInum(c, i) == 0) && (forall j :: 0 <= j < i ==> EntryInum(c, j) != 0)
    requires Canon(field) !in DirAt(fs, dp)
    modifies fs`icache, fs`ino, fs.bc, fs.bc.vd
    ensures AtDir(fs, dp) && fs.bc.Refs() == old(fs.bc.Refs())
    ensures IRefs(fs.icache) == IRefs(old(fs.icache)) && SameNames(old(fs.icache), fs.icache)
    ensures DirAt(fs, dp) == old(DirAt(fs, dp))[Canon(field) := inum]
    ensures field == Padded(Canon(field)) ==>
      EntryLeft(old(DirBytes(fs, dp)), i, inum, Canon(field), DirBytes(fs, dp))
    ensures var k := fs.icache[dp].inum;
      k == old(fs.icache[dp].inum) &&
      fs.ino == old(fs.ino)[k := fs.ino[k]] && SameFiles(old(fs.bc.disk), fs.bc.disk, old(fs.ino), k) &&
      Attrs(fs.ino[k]) == Attrs(old(fs.ino)[k]) && fs.ino[k].size >= old(fs.ino)[k].size
  {
    hide BufferCache.Valid, BufferCache.ValidExcept, OnDisk, UniqueNames, Canon, DirOk, DirMap, SameFiles, Content,
      FsInv, DirsOk, Written, EntryLeft, Padded, FreeBlocks, BlocksFor, IcacheOk, RoomForEntry, EntryName;
    ghost var k := fs.icache[dp].inum;
    ghost var disk0, ino0 := fs.bc.disk, fs.ino;
    ghost var c0 := Content(fs.bc.disk, fs.icache[dp].di);
    Fits(fs, dp, i);
    fs.ValidIsWriting(dp);
    hide EncDirent, EntryInum, FileSystem.Valid;
    assert inum % 0x1_0000 == inum;
    var de := EncDirent(inum % 0x1_0000, field);
    var n := fs.Writei(dp, de, 16 * i, 16);
    assert de[..16] == de;
    fs.ValidIsWriting(dp);
    assert Content(fs.bc.disk, fs.ino[k]) == Written(c0, 16 * i, EncDirent(inum, field));
    assert EntryAdded(c0, i, inum, field, Content(fs.bc.disk, fs.ino[k]));
    WrittenLength(c0, 16 * i, de);
    if field == Padded(Canon(field)) {
      LeftByWrite(c0, i, inum, Canon(field), Content(fs.bc.disk, fs.ino[k]));
    }
    Linked(disk0, ino0, k, i, inum, field, fs.bc.disk, fs.ino);
  }

  /** The entry write cannot fail: the offset is in range and the blocks are there. */
  lemma Fits(fs: FileSystem, dp: nat, i: nat)
    requires AtDir(fs, dp) && RoomForEntry(fs, dp)
    requires var c := Content(fs.bc.disk, fs.icache[dp].di);
      i <= Entries(c) && (i < Entries(c) ==> EntryInum(c, i) == 0) && (forall j :: 0 <= j < i ==> EntryInum(c, j) != 0)
    ensures !FileSystem.TooFar(fs.icache[dp].di.size, 16 * i, 16)
    ensures 16 * i + 16 <= fs.icache[dp].di.size ||
            BlocksFor(16 * i + 16) - BlocksFor(fs.icache[dp].di.size) <= |FreeBlocks(fs.sb, fs.bc.disk)|
    ensures |Content(fs.bc.disk, fs.icache[dp].di)| % 16 == 0 && |fs.ino| <= 0x1_0000
  {
    hide BufferCache.Valid, BufferCache.ValidExcept, OnDisk, UniqueNames, Content, FreeBlocks;
    DirLength(fs, dp);
  }

  // ---------------------------------------------------------------- creating a file

  /** Room for one more entry, as a property of the disk. */
  predicate DirRoom(sb: SuperBlock, disk: Disk, d: Dinode)
    requires |d.addrs| == 13 && d.size <= 274432
  {
    var c := Content(disk, d);
    (exists i :: 0 <= i < Entries(c) && EntryInum(c, i) == 0) ||
    (|c| + 16 <= 274432 && BlocksFor(|c| + 16) - BlocksFor(|c|) <= |FreeBlocks(sb, disk)|)
  }

  lemma RoomFromDirRoom(fs: FileSystem, dp: nat)
    requires AtDir(fs, dp) && DirRoom(fs.sb, fs.bc.disk, fs.icache[dp].di)
    ensures RoomForEntry(fs, dp)
  {}

  predicate SomeFreeInode(ino: seq<Dinode>)
  {
    exists k :: 1 <= k < |ino| && ino[k].kind == 0
  }

  lemma TableBound(fs: FileSystem)
    requires fs.Valid()
    ensures 1 < |fs.ino| <= 0x1_0000 && forall j :: 0 <= j < |fs.ino| ==> |fs.ino[j].addrs| == 13
  {}

  /** A new empty file keeps every directory as it is. */
  lemma DirsAfterClaim(disk: Disk, disk': Disk, ino: seq<Dinode>, k: nat)
    requires DirsOk(disk, ino) && (forall j :: 0 <= j < |ino| ==> |ino[j].addrs| == 13)
    requires 1 <= k < |ino| && ino[k].kind == 0 && SameFiles(disk, disk', ino, -1)
    ensures DirsOk(disk', ino[k := ZeroDinode().(kind := T_FILE)])
  {
    var ino' := ino[k := ZeroDinode().(kind := T_FILE)];
    forall j | Live(ino, j)
      ensures Live(ino', j) && ino'[j] == ino[j]
    {}
    forall j | IsDir(ino', j)
      ensures IsDir(ino, j) && ino'[j] == ino[j] && Content(disk', ino[j]) == Content(disk, ino[j])
    {}
    DirsKept(disk, ino, disk', ino');
  }

  /** sysfile.c:97: the new inode; the parent directory stays locked and as it was. */
  method NewFileInode(fs: FileSystem, dp: nat) returns (next: nat)
    requires AtDir(fs, dp) && SomeFreeInode(fs.ino) && Spare(IRefs(fs.icache))
    modifies fs`icache, fs`ino, fs.bc, fs.bc.vd
    ensures AtDir(fs, dp) && fs.bc.Refs() == old(fs.bc.Refs()) && fs.icache[dp] == old(fs.icache[dp])
    ensures next < 50 && IRefs(fs.icache) == IRefs(old(fs.icache))[next := IRefs(old(fs.icache))[next] + 1]
    ensures SameNames(old(fs.icache), fs.icache)
    ensures var k := fs.icache[next].inum;
      1 <= k < |fs.ino| == |old(fs.ino)| && old(fs.ino)[k].kind == 0 &&
      fs.ino == old(fs.ino)[k := ZeroDinode().(kind := T_FILE)]
    ensures Content(fs.bc.disk, fs.icache[dp].di) == old(Content(fs.bc.disk, fs.icache[dp].di))
    ensures FreeBlocks(fs.sb, fs.bc.disk) == old(FreeBlocks(fs.sb, fs.bc.disk))
    ensures SameFiles(old(fs.bc.disk), fs.bc.disk, old(fs.ino), -1)
  {
    hide BufferCache.Valid, BufferCache.ValidExcept, OnDisk, Content, FreeBlocks, DirOk, FsInv, IcacheOk, Spare;
    ghost var disk0, ino0 := fs.bc.disk, fs.ino;
    fs.ValidIsWriting(dp);
    next := fs.Ialloc(ROOTDEV, T_FILE);
    DirsAfterClaim(disk0, fs.bc.disk, ino0, fs.icache[next].inum);
    assert next != dp;
  }

  /**
   sysfile.c:97-100: a new empty file under a name the directory did not have; the
   directory's map gains the name and no other file changes.
   */
  method CreateFile(fs: FileSystem, dp: nat, name: seq<byte>) returns (next: nat)
    requires AtDir(fs, dp) && |name| == 14 && Canon(name) !in DirAt(fs, dp)
    requires SomeFreeInode(fs.ino) && DirRoom(fs.sb, fs.bc.disk, fs.icache[dp].di) && Spare(IRefs(fs.icache))
    modifies fs`icache, fs`ino, fs.bc, fs.bc.vd
    ensures AtDir(fs, dp) && fs.bc.Refs() == old(fs.bc.Refs()) && fs.icache[dp].inum == old(fs.icache[dp].inum)
    ensures next < 50 && IRefs(fs.icache) == IRefs(old(fs.icache))[next := IRefs(old(fs.icache))[next] + 1]
    ensures var k, d := fs.icache[next].inum, fs.icache[dp].inum;
      1 <= k < |fs.ino| == |old(fs.ino)| && k != d && old(fs.ino)[k].kind == 0 &&
      fs.ino == old(fs.ino)[k := ZeroDinode().(kind := T_FILE)][d := fs.ino[d]] &&
      Attrs(fs.ino[d]) == Attrs(old(fs.ino)[d]) && fs.ino[d].size >= old(fs.ino)[d].size &&
      DirAt(fs, dp) == old(DirAt(fs, dp))[Canon(name) := k]
    ensures SameFiles(old(fs.bc.disk), fs.bc.disk, old(fs.ino), fs.icache[dp].inum)
    ensures NamesKept(IRefs(old(fs.icache)), old(fs.icache), fs.icache)
  {
    hide BufferCache.Valid, BufferCache.ValidExcept, OnDisk, Content, FreeBlocks, DirOk, FsInv, IcacheOk, Spare,
      SameFiles,
      DirMap, SameNames, NamesKept, DirsOk, FileSystem.Valid, Canon, RoomForEntry, BlocksFor, SomeFreeInode, CanGet,
      ZeroDinode, EntryLeft, DirBytes;
    ghost var disk0, ino0, ic0 := fs.bc.disk, fs.ino, fs.icache;
    TableBound(fs);
    next := NewFileInode(fs, dp);
    assert fs.ino[fs.icache[next].inum].kind == T_FILE;
    ghost var disk1, ino1, ic1 := fs.bc.disk, fs.ino, fs.icache;
    NamesKeptBy(IRefs(ic0), ic0, ic1);
    RoomFromDirRoom(fs, dp);
    var r, slot := Dirlink(fs, dp, name, fs.icache[next].inum);
    NamesKeptBy(IRefs(ic0), ic1, fs.icache);
    NamesKeptTrans(IRefs(ic0), ic0, ic1, fs.icache);
    NextNamed(ic1, fs.icache, next);
    assert r == 0;
    SameFilesAfterClaim(disk0, disk1, fs.bc.disk, ino0, ic1[next].inum, fs.icache[dp].inum);
  }

  lemma NextNamed(a: seq<Inode>, b: seq<Inode>, s: nat)
    requires SameNames(a, b) && s < |a| && a[s].ref > 0
    ensures b[s].inum == a[s].inum
  {}

  lemma SameFilesAfterClaim(a: Disk, b: Disk, c: Disk, ino: seq<Dinode>, k: nat, d: nat)
    requires (forall j :: 0 <= j < |ino| ==> |ino[j].addrs| == 13) && k < |ino| && ino[k].kind == 0
    requires SameFiles(a, b, ino, -1) && SameFiles(b, c, ino[k := ZeroDinode().(kind := T_FILE)], d)
    ensures SameFiles(a, c, ino, d)
  {
    var ino' := ino[k := ZeroDinode().(kind := T_FILE)];
    forall j | Live(ino, j) && j != d && ino[j].size <= 274432
      ensures Content(c, ino[j]) == Content(a, ino[j])
    {
      assert Live(ino', j) && ino'[j] == ino[j];
    }
  }
}

/**
 Runs of open, read, write and close over shared descriptors (kernel/syscall/sysfile.c):
 what any sequence of calls keeps, and the only way in which it changes directories.
 */
module FileRuns {
  import opened Layout
  import opened Wrappers
  import opened DiskModel
  import opened Bio
  import opened Fs
  import opened Directory
  import opened DirOps
  import opened Path
  import opened SysFile

  /** A file system call of process p. */
  datatype Call =
    | Open(p: nat, path: seq<byte>, omode: u32)
    | Read(p: nat, fd: int, n: int)
    | Write(p: nat, fd: int, src: seq<byte>, n: int)
    | Close(p: nat, fd: int)

  /** The arguments have their C types, and a write is given as many bytes as it may store. */
  predicate Typed(c: Call)
  {
    c.p < 64 &&
    match c
    case Open(_, path, _) => forall k :: 0 <= k < |path| ==> path[k] != 0
    case Read(_, _, n) => -0x8000_0000 <= n < 0x8000_0000
    case Write(_, _, src, n) =>
      -0x8000_0000 <= n < 0x8000_0000 && (FileTable.Uint(n) <= 274432 ==> FileTable.Uint(n) <= |src|)
    case Close(_, _) => true
  }

  /** The call may enter a new name in a directory. */
  predicate MayCreate(c: Call)
  {
    c.Open? && Creates(c.omode)
  }

  // ---------------------------------------------------------------- what a run does to the tree

  /** The same directories; names they had lead where they led, and new names may have come. */
  ghost predicate TreeGrew(disk0: Disk, ino0: seq<Dinode>, disk: Disk, ino: seq<Dinode>)
  {
    DirsOk(disk0, ino0) && DirsOk(disk, ino) && (forall j :: IsDir(ino, j) <==> IsDir(ino0, j)) &&
    forall j, n {:trigger n in DirOf(disk0, ino0, j)} :: IsDir(ino0, j) && n in DirOf(disk0, ino0, j) ==>
      n in DirOf(disk, ino, j) && DirOf(disk, ino, j)[n] == DirOf(disk0, ino0, j)[n]
  }

  /** Every directory is the map it was. */
  ghost predicate SameTree(disk0: Disk, ino0: seq<Dinode>, disk: Disk, ino: seq<Dinode>)
  {
    DirsOk(disk0, ino0) && DirsOk(disk, ino) && (forall j :: IsDir(ino, j) <==> IsDir(ino0, j)) &&
    forall j {:trigger DirOf(disk, ino, j)} :: IsDir(ino0, j) ==> DirOf(disk, ino, j) == DirOf(disk0, ino0, j)
  }

  /** What a call or a run may do: inodes stay and do not shrink, and only O_CREAT adds names. */
  ghost predicate Kept(disk0: Disk, ino0: seq<Dinode>, disk: Disk, ino: seq<Dinode>, mayCreate: bool)
  {
    Monotone(ino0, ino) && TreeGrew(disk0, ino0, disk, ino) && (!mayCreate ==> SameTree(disk0, ino0, disk, ino))
  }

  lemma KeptNone(disk: Disk, ino: seq<Dinode>)
    requires DirsOk(disk, ino)
    ensures Kept(disk, ino, disk, ino, false)
  {}

  lemma KeptTrans(a: Disk, inoA: seq<Dinode>, b: Disk, inoB: seq<Dinode>, c: Disk, inoC: seq<Dinode>, more: bool,
                  again: bool)
    requires Kept(a, inoA, b, inoB, more) && Kept(b, inoB, c, inoC, again)
    ensures Kept(a, inoA, c, inoC, more || again)
  {
    hide DirOf, DirOk, Content;
    forall k | Live(inoA, k)
      ensures Live(inoC, k) && inoC[k].kind == inoA[k].kind && inoC[k].size >= inoA[k].size
    {
      assert Live(inoB, k);
    }
    if !more && !again {
      forall j | IsDir(inoA, j)
        ensures DirOf(c, inoC, j) == DirOf(a, inoA, j)
      {
        assert DirOf(c, inoC, j) == DirOf(b, inoB, j) == DirOf(a, inoA, j);
      }
    }
  }

  /** A write changes no directory. */
  lemma KeptByWrite(disk0: Disk, ino0: seq<Dinode>, disk: Disk, ino: seq<Dinode>, k: nat)
    requires DirsOk(disk0, ino0) && DirsOk(disk, ino) && Live(ino0, k) && ino0[k].kind != T_DIR
    requires FileTable.OnlyFileGrew(disk0, ino0, disk, ino, k)
    ensures Kept(disk0, ino0, disk, ino, false)
  {
    hide Content, DirMap;
    forall j | IsDir(ino0, j)
      ensures IsDir(ino, j) && DirOf(disk, ino, j) == DirOf(disk0, ino0, j)
    {
      assert j != k;
    }
  }

  /** A new file adds one name to one directory. */
  lemma KeptByCreate(disk0: Disk, ino0: seq<Dinode>, disk: Disk, ino: seq<Dinode>, d: nat, n: Name, k: nat)
    requires Made(disk0, ino0, disk, ino, d, n, k) && Monotone(ino0, ino)
    ensures Kept(disk0, ino0, disk, ino, true)
  {
    hide DirOf;
    forall j | IsDir(ino0, j)
      ensures IsDir(ino, j) &&
        DirOf(disk, ino, j) == if j == d then DirOf(disk0, ino0, d)[n := k] else DirOf(disk0, ino0, j)
    {
      MadeMaps(disk0, ino0, disk, ino, d, n, k, j);
    }
    forall j | IsDir(ino, j)
      ensures IsDir(ino0, j)
    {
      assert j != k;
    }
  }

  // ---------------------------------------------------------------- one call

  /** No panic for want of a cache entry, an inode or a block stops the call. */
  predicate Fits(sb: SuperBlock, disk: Disk, ino: seq<Dinode>, icache: seq<Inode>, ftable: seq<File>,
                 ofile: seq<seq<int>>, c: Call)
    requires DirsOk(disk, ino) && Typed(c) && TableShape(ftable, ofile)
  {
    match c
    case Open(_, path, omode) => FileTable.OpenFits(sb, disk, ino, icache, path, omode)
    case Write(p, fd, _, n) =>
      0 <= fd < 16 && ofile[p][fd] != -1 && |icache| == 50 ==>
        var F := ftable[ofile[p][fd]];
        F.writable && 0 <= F.ip < 50 && icache[F.ip].inum < |ino| ==>
          FileTable.WriteFits(sb, disk, ino[icache[F.ip].inum].size, F.off, FileTable.Uint(n))
    case _ => true
  }

  /** The inode table as the disk holds it. */
  function InodesOf(sb: SuperBlock, disk: Disk): (r: seq<Dinode>)
    requires forall k: nat :: k < sb.ninodes ==> sb.inodestart as int + k / 16 < |disk|
    ensures |r| == sb.ninodes
  {
    seq(sb.ninodes, k requires 0 <= k < sb.ninodes => DinodeAt(sb, disk, k))
  }

  /** Whether the kernel can carry the call out, decided from its own state and the device's. */
  method MayCall(t: FileTable, c: Call) returns (ok: bool)
    requires t.Valid() && Typed(c)
    ensures ok <==> Fits(t.fs.sb, t.fs.bc.disk, t.fs.ino, t.fs.icache, t.ftable, t.ofile, c)
  {
    hide DirsOk, FsInv, Fits, BufferCache.Valid, BufferCache.ValidExcept;
    t.fs.bc.DeviceDisk();
    TableOnDisk(t.fs);
    var disk := t.fs.bc.vd.Disk();
    var ino := InodesOf(t.fs.sb, disk);
    assert ino == t.fs.ino;
    ok := Fits(t.fs.sb, disk, ino, t.fs.icache, t.ftable, t.ofile, c);
  }

  lemma TableOnDisk(fs: FileSystem)
    requires fs.Valid()
    ensures |fs.ino| == fs.sb.ninodes
    ensures forall k: nat :: k < fs.sb.ninodes ==> fs.sb.inodestart as int + k / 16 < |fs.bc.disk|
    ensures forall k: nat :: k < fs.sb.ninodes ==> DinodeAt(fs.sb, fs.bc.disk, k) == fs.ino[k]
  {
    assert GoodSb(fs.sb, |fs.bc.disk|);
  }

  /** One call, with no claim about its result. */
  method Do(t: FileTable, c: Call)
    requires t.Valid() && Typed(c) && Fits(t.fs.sb, t.fs.bc.disk, t.fs.ino, t.fs.icache, t.ftable, t.ofile, c)
    modifies t, t.fs`icache, t.fs`ino, t.fs.bc, t.fs.bc.vd
    ensures t.Valid() && Kept(old(t.fs.bc.disk), old(t.fs.ino), t.fs.bc.disk, t.fs.ino, MayCreate(c))
  {
    hide FileSystem.Valid, FilesOk, Kept, DirsOk, FsInv, FileTable.OpenFits, FileTable.WriteFits;
    ghost var disk0, ino0 := t.fs.bc.disk, t.fs.ino;
    match c {
      case Open(p, path, omode) =>
        DoOpen(t, p, path, omode);
      case Read(p, fd, n) =>
        var r, data := t.SysRead(p, fd, n);
        KeptNone(disk0, ino0);
      case Write(p, fd, src, n) =>
        DoWrite(t, p, fd, src, n);
      case Close(p, fd) =>
        var r := t.SysClose(p, fd);
        KeptNone(disk0, ino0);
    }
  }

  // ---------------------------------------------------------------- any number of calls

  /**
   A run of calls up to the first one for which the kernel would panic for want of a cache
   entry, an inode or a block. All invariants hold at the end, with exact reference counts
   and every offset inside its file; from the first state to the last no inode goes, changes
   its type or shrinks, the directories are the same ones and keep their names, and they are
   the same maps unless some call was an open with O_CREAT.
   */
  method Run(t: FileTable, calls: seq<Call>) returns (n: nat)
    requires t.Valid() && forall i :: 0 <= i < |calls| ==> Typed(calls[i])
    modifies t, t.fs`icache, t.fs`ino, t.fs.bc, t.fs.bc.vd
    ensures t.Valid() && n <= |calls|
    ensures n < |calls| ==> !Fits(t.fs.sb, t.fs.bc.disk, t.fs.ino, t.fs.icache, t.ftable, t.ofile, calls[n])
    ensures Kept(old(t.fs.bc.disk), old(t.fs.ino), t.fs.bc.disk, t.fs.ino,
                 exists i :: 0 <= i < n && MayCreate(calls[i]))
  {
    hide Kept, DirsOk, FsInv, Fits, FileSystem.Valid, FilesOk;
    ghost var disk0, ino0 := t.fs.bc.disk, t.fs.ino;
    KeptNone(disk0, ino0);
    n := 0;
    ghost var created := false;
    while n < |calls|
      invariant n <= |calls| && t.Valid() && (created <==> exists i :: 0 <= i < n && MayCreate(calls[i]))
      invariant Kept(disk0, ino0, t.fs.bc.disk, t.fs.ino, created)
    {
      var ok := MayCall(t, calls[n]);
      if !ok {
        return;
      }
      ghost var disk1, ino1 := t.fs.bc.disk, t.fs.ino;
      Do(t, calls[n]);
      KeptTrans(disk0, ino0, disk1, ino1, t.fs.bc.disk, t.fs.ino, created, MayCreate(calls[n]));
      created := created || MayCreate(calls[n]);
      n := n + 1;
    }
  }

  method DoOpen(t: FileTable, p: nat, path: seq<byte>, omode: u32)
    requires t.Valid() && p < 64 && forall k :: 0 <= k < |path| ==> path[k] != 0
    requires FileTable.OpenFits(t.fs.sb, t.fs.bc.disk, t.fs.ino, t.fs.icache, path, omode)
    modifies t, t.fs`icache, t.fs`ino, t.fs.bc, t.fs.bc.vd
    ensures t.Valid() && Kept(old(t.fs.bc.disk), old(t.fs.ino), t.fs.bc.disk, t.fs.ino, Creates(omode))
  {
    hide FileSystem.Valid, FilesOk, Kept, DirsOk, FsInv, ParentOf, DirOf, Made, Monotone, Walk, Components;
    ghost var disk0, ino0, comps := t.fs.bc.disk, t.fs.ino, Components(path);
    RootIsDir(disk0, ino0);
    var fd := t.SysOpen(p, path, omode);
    if Creates(omode) && !old(t.OpenRefused(path, omode)) {
      CreateKept(disk0, ino0, t.fs.bc.disk, t.fs.ino, comps, t.PathInode(path));
    } else {
      KeptNone(disk0, ino0);
      KeptMore(disk0, ino0, disk0, ino0);
    }
  }

  lemma KeptMore(disk0: Disk, ino0: seq<Dinode>, disk: Disk, ino: seq<Dinode>)
    requires Kept(disk0, ino0, disk, ino, false)
    ensures Kept(disk0, ino0, disk, ino, true)
  {}

  lemma CreateKept(disk0: Disk, ino0: seq<Dinode>, disk: Disk, ino: seq<Dinode>, comps: seq<Name>, r: Option<nat>)
    requires DirsOk(disk0, ino0) && DirsOk(disk, ino) && IsDir(ino0, ROOTINO) && Monotone(ino0, ino)
    requires FileTable.CreateResult(disk0, ino0, disk, ino, comps, r)
    ensures Kept(disk0, ino0, disk, ino, true)
  {
    hide Kept, ParentOf, DirOf, Made, Monotone, Content, DirOk;
    var d := ParentOf(disk0, ino0, ROOTINO, comps);
    if d.Some? && comps != [] && IsDir(ino0, d.value) && LastOf(comps) !in DirOf(disk0, ino0, d.value) {
      KeptByCreate(disk0, ino0, disk, ino, d.value, LastOf(comps), r.value);
    } else {
      KeptNone(disk0, ino0);
      KeptMore(disk0, ino0, disk, ino);
    }
  }

  method DoWrite(t: FileTable, p: nat, fd: int, src: seq<byte>, n: int)
    requires t.Valid() && Typed(Write(p, fd, src, n))
    requires Fits(t.fs.sb, t.fs.bc.disk, t.fs.ino, t.fs.icache, t.ftable, t.ofile, Write(p, fd, src, n))
    modifies t`ftable, t.fs`icache, t.fs`ino, t.fs.bc, t.fs.bc.vd
    ensures t.Valid() && Kept(old(t.fs.bc.disk), old(t.fs.ino), t.fs.bc.disk, t.fs.ino, false)
  {
    hide FileSystem.Valid, FilesOk, Kept, DirsOk, FsInv, Content, FileTable.OnlyFileGrew;
    ghost var disk0, ino0 := t.fs.bc.disk, t.fs.ino;
    if !t.BadFd(p, fd) {
      ghost var f := t.FileOf(p, fd);
      t.OpenInode(f);
      ghost var k := t.FileInum(f);
      var r := t.SysWrite(p, fd, src, n);
      if disk0 != t.fs.bc.disk || ino0 != t.fs.ino {
        KeptByWrite(disk0, ino0, t.fs.bc.disk, t.fs.ino, k);
      } else {
        KeptNone(disk0, ino0);
      }
    } else {
      var r := t.SysWrite(p, fd, src, n);
      KeptNone(disk0, ino0);
    }
  }
}

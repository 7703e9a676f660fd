/**
 What a program may count on (kernel/syscall/sysfile.c): the bytes it writes through one
 descriptor are the ones that it, or any other process, reads after opening the same path.
 */
module FileClient {
  import opened Layout
  import opened Wrappers
  import opened DiskModel
  import opened Bio
  import opened Fs
  import opened Directory
  import opened DirOps
  import opened Path
  import opened SysFile
  import opened FileRuns

  /** How far WriteThenRead came: to the end, or to a call that failed or would run out of a resource. */
  datatype Outcome = ReadBack(data: seq<byte>) | NotOpened | NoRoom(fd: int, x: seq<byte>) | NotReopened

  /** In an unchanged tree every path leads where it led. */
  lemma {:induction false} SameWalk(disk0: Disk, ino0: seq<Dinode>, disk: Disk, ino: seq<Dinode>, k: nat,
                                    comps: seq<Name>)
    requires SameTree(disk0, ino0, disk, ino) && Monotone(ino0, ino) && Live(ino0, k) && Live(ino, k)
    ensures Walk(disk, ino, k, comps) == Walk(disk0, ino0, k, comps)
    decreases |comps|
  {
    hide DirOf, DirsOk, Monotone;
    TreesOk(disk0, ino0, disk, ino);
    if comps != [] && IsDir(ino0, k) && comps[0] in DirOf(disk0, ino0, k) {
      assert DirOf(disk, ino, k) == DirOf(disk0, ino0, k);
      DirTargets(disk0, ino0, k, comps[0]);
      DirTargets(disk, ino, k, comps[0]);
      SameWalk(disk0, ino0, disk, ino, DirOf(disk0, ino0, k)[comps[0]], comps[1..]);
    }
  }

  lemma TreesOk(disk0: Disk, ino0: seq<Dinode>, disk: Disk, ino: seq<Dinode>)
    requires SameTree(disk0, ino0, disk, ino)
    ensures DirsOk(disk0, ino0) && DirsOk(disk, ino)
  {}

  /** A path leads where it led before a step that kept the tree. */
  lemma PathStays(t: FileTable, disk0: Disk, ino0: seq<Dinode>, path: seq<byte>, k: nat)
    requires t.Valid() && Monotone(ino0, t.fs.ino) && SameTree(disk0, ino0, t.fs.bc.disk, t.fs.ino) && Live(ino0, 1)
    requires DirsOk(disk0, ino0) && Walk(disk0, ino0, 1, Components(path)) == Some(k)
    ensures t.PathInode(path) == Some(k)
  {
    hide FileSystem.Valid, FilesOk, DirsOk, Walk, Components, SameTree, Monotone;
    RootIsDir(t.fs.bc.disk, t.fs.ino);
    SameWalk(disk0, ino0, t.fs.bc.disk, t.fs.ino, 1, Components(path));
  }

  /** The call is well formed, and no panic for want of a cache entry, an inode or a block would stop it now. */
  ghost predicate Possible(t: FileTable, c: Call)
    reads t, t.fs, t.fs.bc, t.fs.bc.vd
  {
    t.Valid() && Typed(c) && FileRuns.Fits(t.fs.sb, t.fs.bc.disk, t.fs.ino, t.fs.icache, t.ftable, t.ofile, c)
  }

  /** Descriptor fd of process p stands after the bytes x, which begin the file of the path, and may write on. */
  ghost predicate Behind(t: FileTable, p: nat, fd: int, path: seq<byte>, k: nat, x: seq<byte>)
    reads t, t.fs, t.fs.bc, t.fs.bc.vd
  {
    t.Valid() && p < 64 && !t.BadFd(p, fd) && t.PathInode(path) == Some(k) &&
    var f := t.FileOf(p, fd);
    t.ftable[f].writable && t.FileInum(f) == k && t.ftable[f].off == |x| && x <= t.FileBytes(f)
  }

  /** One write behind x, unless the disk has no room for it. */
  method WriteOn(t: FileTable, p: nat, fd: int, y: seq<byte>, ghost path: seq<byte>, ghost k: nat, ghost x: seq<byte>)
    returns (ok: bool)
    requires Behind(t, p, fd, path, k, x) && |x| + |y| <= 274432
    modifies t`ftable, t.fs`icache, t.fs`ino, t.fs.bc, t.fs.bc.vd
    ensures t.Valid()
    ensures !ok ==> !Possible(t, Write(p, fd, y, |y|))
    ensures ok ==> Behind(t, p, fd, path, k, x + y)
  {
    hide FileSystem.Valid, FilesOk, Kept, DirsOk, FsInv, Content, FileTable.OnlyFileGrew, FileRuns.Fits, SameTree,
      Monotone, Walk, Components;
    ok := MayCall(t, Write(p, fd, y, |y|));
    if !ok {
      return;
    }
    ghost var disk0, ino0, f := t.fs.bc.disk, t.fs.ino, t.FileOf(p, fd);
    ghost var c := t.FileBytes(f);
    t.OpenInode(f);
    RootIsDir(disk0, ino0);
    WriteRoom(t, p, fd, y);
    var r := t.SysWrite(p, fd, y, |y|);
    assert y[..|y|] == y;
    assert Written(c, |x|, y)[..|x| + |y|] == x + y;
    KeptByWrite(disk0, ino0, t.fs.bc.disk, t.fs.ino, k);
    KeptParts(disk0, ino0, t.fs.bc.disk, t.fs.ino);
    PathStays(t, disk0, ino0, path, k);
  }

  lemma WriteRoom(t: FileTable, p: nat, fd: int, y: seq<byte>)
    requires t.Valid() && Typed(Write(p, fd, y, |y|)) && !t.BadFd(p, fd)
    requires Possible(t, Write(p, fd, y, |y|))
    ensures t.ftable[t.FileOf(p, fd)].writable ==> t.RoomToWrite(t.FileOf(p, fd), FileTable.Uint(|y|))
  {
    hide FileSystem.Valid, DirsOk, FsInv, Content;
    t.OpenInode(t.FileOf(p, fd));
  }

  lemma KeptParts(disk0: Disk, ino0: seq<Dinode>, disk: Disk, ino: seq<Dinode>)
    requires Kept(disk0, ino0, disk, ino, false)
    ensures Monotone(ino0, ino) && SameTree(disk0, ino0, disk, ino)
  {}

  /** open with O_CREAT | O_RDWR, and the inode it leads to. */
  method OpenToWrite(t: FileTable, p: nat, path: seq<byte>) returns (fd: int, ghost k: nat)
    requires t.Valid() && Typed(Open(p, path, 0x202))
    modifies t, t.fs`icache, t.fs`ino, t.fs.bc, t.fs.bc.vd
    ensures t.Valid()
    ensures fd == -1 <==>
      old(!Possible(t, Open(p, path, 0x202)) || t.OpenRefused(path, 0x202) || NoFreeFile(t.ftable) || Full(t.ofile[p]))
    ensures fd != -1 ==> Behind(t, p, fd, path, k, [])
  {
    hide FileSystem.Valid, FilesOk, DirsOk, FsInv, Content, Walk, Components, FileTable.OpenFits, FileTable.Refused,
      FileTable.CreateResult, Monotone;
    k := 0;
    var ok := MayCall(t, Open(p, path, 0x202));
    if !ok {
      return -1, 0;
    }
    fd := t.SysOpen(p, path, 0x202);
    if fd != -1 {
      k := t.FileInum(t.FileOf(p, fd));
    }
  }

  /** open with O_RDONLY, read n bytes, close: the first n bytes of the inode the path leads to. */
  method ReadFromStart(t: FileTable, q: nat, path: seq<byte>, n: nat, ghost k: nat) returns (r: Option<seq<byte>>)
    requires t.Valid() && Typed(Open(q, path, 0)) && n < 0x8000_0000
    requires t.PathInode(path) == Some(k) && Live(t.fs.ino, k)
    requires |t.fs.ino[k].addrs| == 13 && t.fs.ino[k].size <= 274432
    modifies t, t.fs`icache, t.fs`ino, t.fs.bc, t.fs.bc.vd
    ensures t.Valid() && t.fs.bc.disk == old(t.fs.bc.disk) && t.fs.ino == old(t.fs.ino)
    ensures r.None? <==>
      old(!Possible(t, Open(q, path, 0)) || NoFreeFile(t.ftable) || Full(t.ofile[q]))
    ensures r.None? ==> !Possible(t, Open(q, path, 0)) || NoFreeFile(t.ftable) || Full(t.ofile[q])
    ensures r.Some? ==>
      var c := Content(t.fs.bc.disk, t.fs.ino[k]);
      r.value == c[..if n <= |c| then n else |c|]
  {
    hide FileSystem.Valid, FilesOk, DirsOk, FsInv, Content, Walk, Components, FileTable.OpenFits, FileTable.Refused,
      FileTable.CreateResult, Monotone;
    var ok := MayCall(t, Open(q, path, 0));
    if !ok {
      return None;
    }
    PathNotRefused(t, path);
    var fd := t.SysOpen(q, path, 0);
    if fd == -1 {
      return None;
    }
    assert t.FileInum(t.FileOf(q, fd)) == k;
    var m, data := t.SysRead(q, fd, n);
    var z := t.SysClose(q, fd);
    r := Some(data);
  }

  lemma PathNotRefused(t: FileTable, path: seq<byte>)
    requires t.Valid() && t.PathInode(path).Some?
    ensures !t.OpenRefused(path, 0)
  {
    hide FileSystem.Valid, FilesOk, DirsOk, Walk, Components, FileTable.Refused;
    RootIsDir(t.fs.bc.disk, t.fs.ino);
    FileTable.RefusedIs(t.fs.bc.disk, t.fs.ino, Components(path), 0);
  }

  /** Inode k is a file that begins with x. */
  ghost predicate Holds(t: FileTable, k: nat, x: seq<byte>)
    reads t, t.fs, t.fs.bc, t.fs.bc.vd
  {
    Live(t.fs.ino, k) && |t.fs.ino[k].addrs| == 13 && t.fs.ino[k].size <= 274432 &&
    x <= Content(t.fs.bc.disk, t.fs.ino[k])
  }

  /** Two writes through one descriptor, which is closed afterwards; a failure is returned. */
  method StoreBoth(t: FileTable, p: nat, path: seq<byte>, a: seq<byte>, b: seq<byte>)
    returns (r: Option<Outcome>, ghost k: nat)
    requires t.Valid() && Typed(Open(p, path, 0x202)) && |a| + |b| <= 274432
    modifies t, t.fs`icache, t.fs`ino, t.fs.bc, t.fs.bc.vd
    ensures t.Valid() && (r.Some? ==> r.value.NotOpened? || r.value.NoRoom?)
    ensures r == Some(NotOpened) <==>
      old(!Possible(t, Open(p, path, 0x202)) || t.OpenRefused(path, 0x202) || NoFreeFile(t.ftable) || Full(t.ofile[p]))
    ensures r.Some? && r.value.NoRoom? ==>
      r.value.x in {a, b} && !Possible(t, Write(p, r.value.fd, r.value.x, |r.value.x|))
    ensures r.None? ==> t.PathInode(path) == Some(k) && Holds(t, k, a + b)
  {
    hide FileSystem.Valid, FilesOk, DirsOk, FsInv, Content, Walk, Components, FileTable.Refused, Possible;
    var fd;
    fd, k := OpenToWrite(t, p, path);
    if fd == -1 {
      return Some(NotOpened), 0;
    }
    var ok := WriteOn(t, p, fd, a, path, k, []);
    if !ok {
      return Some(NoRoom(fd, a)), 0;
    }
    assert [] + a == a;
    ok := WriteOn(t, p, fd, b, path, k, a);
    if !ok {
      return Some(NoRoom(fd, b)), 0;
    }
    t.OpenInode(t.FileOf(p, fd));
    var z := t.SysClose(p, fd);
    r := None;
  }

  /**
   Process p writes a and then b through one descriptor of the path, which it creates if need
   be, and closes it; then process q opens the path and reads as many bytes: it gets a + b.
   Nothing can go wrong but the calls named: the first open is refused, a table is full, or a
   call would run out of blocks, inodes or cache entries.
   */
  method WriteThenRead(t: FileTable, p: nat, q: nat, path: seq<byte>, a: seq<byte>, b: seq<byte>) returns (r: Outcome)
    requires t.Valid() && Typed(Open(p, path, 0x202)) && q < 64 && |a| + |b| <= 274432
    modifies t, t.fs`icache, t.fs`ino, t.fs.bc, t.fs.bc.vd
    ensures t.Valid()
    ensures r.ReadBack? ==> r.data == a + b
    ensures r.NotOpened? <==>
      old(!Possible(t, Open(p, path, 0x202)) || t.OpenRefused(path, 0x202) || NoFreeFile(t.ftable) || Full(t.ofile[p]))
    ensures r.NoRoom? ==> r.x in {a, b} && !Possible(t, Write(p, r.fd, r.x, |r.x|))
    ensures r.NotReopened? ==> !Possible(t, Open(q, path, 0)) || NoFreeFile(t.ftable) || Full(t.ofile[q])
  {
    hide FileSystem.Valid, FilesOk, DirsOk, FsInv, Content, Walk, Components, FileTable.Refused, Possible;
    var stored;
    ghost var k;
    stored, k := StoreBoth(t, p, path, a, b);
    if stored.Some? {
      return stored.value;
    }
    var d := ReadFromStart(t, q, path, |a| + |b|, k);
    if d.None? {
      return NotReopened;
    }
    ghost var c := Content(t.fs.bc.disk, t.fs.ino[k]);
    assert c[..|a + b|] == a + b;
    r := ReadBack(d.value);
  }
}

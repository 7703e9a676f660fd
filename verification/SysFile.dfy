/**
 Open files and the file system calls (kernel/fs/file.c, kernel/syscall/sysfile.c).

 A struct file pointer is an index into ftable and -1 is the null pointer; likewise
 for the inode pointer of a file, which is an index into the inode cache.
 */
module SysFile {
  import opened Wrappers
  import opened Layout
  import opened DiskModel
  import opened Bio
  import opened Fs
  import opened Directory
  import opened DirOps
  import opened Path

  const FD_NONE: nat := 0
  const FD_INODE: nat := 1

  /** struct file */
  datatype File = File(kind: nat, ref: nat, readable: bool, writable: bool, ip: int, off: nat)

  function FreeFile(): File { File(FD_NONE, 0, false, false, -1, 0) }

  // ---------------------------------------------------------------- counting references

  /** The inode pointers of the file table. */
  ghost function Ips(ftable: seq<File>): (r: seq<int>)
    ensures |r| == |ftable| && forall f :: 0 <= f < |r| ==> r[f] == ftable[f].ip
  {
    seq(|ftable|, f requires 0 <= f < |ftable| => ftable[f].ip)
  }

  /** How many files point at each cache entry. */
  ghost function Pointing(ftable: seq<File>): multiset<int>
  {
    multiset(Ips(ftable))
  }

  /** How many descriptors of all processes hold each file. */
  ghost function Holding(ofile: seq<seq<int>>): multiset<int>
  {
    if ofile == [] then multiset{} else multiset(ofile[0]) + Holding(ofile[1..])
  }

  lemma {:induction false} HoldingUpdate(ofile: seq<seq<int>>, p: nat, fd: nat, x: int)
    requires p < |ofile| && fd < |ofile[p]|
    ensures ofile[p][fd] in Holding(ofile)
    ensures Holding(ofile[p := ofile[p][fd := x]]) == Holding(ofile) - multiset{ofile[p][fd]} + multiset{x}
  {
    var row := ofile[p];
    var ofile' := ofile[p := row[fd := x]];
    assert row[fd] in multiset(row);
    assert multiset(row[fd := x]) == multiset(row) - multiset{row[fd]} + multiset{x};
    if p == 0 {
      assert ofile'[1..] == ofile[1..];
    } else {
      HoldingUpdate(ofile[1..], p - 1, fd, x);
      assert ofile'[1..] == ofile[1..][p - 1 := row[fd := x]];
    }
  }

  lemma PointingUpdate(ftable: seq<File>, f: nat, F: File)
    requires f < |ftable|
    ensures ftable[f].ip in Pointing(ftable)
    ensures Pointing(ftable[f := F]) == Pointing(ftable) - multiset{ftable[f].ip} + multiset{F.ip}
    ensures F.ip == ftable[f].ip ==> Pointing(ftable[f := F]) == Pointing(ftable)
  {
    assert Ips(ftable)[f] == ftable[f].ip;
    assert Ips(ftable[f := F]) == Ips(ftable)[f := F.ip];
  }

  /** Positions from i on that hold x. */
  ghost function Places(xs: seq<int>, x: int, i: nat): (r: set<nat>)
    requires i <= |xs|
    ensures forall k :: k in r <==> i <= k < |xs| && xs[k] == x
    decreases |xs| - i
  {
    if i == |xs| then {} else (if xs[i] == x then {i} else {}) + Places(xs, x, i + 1)
  }

  lemma {:induction false} CountPlaces(xs: seq<int>, x: int, i: nat)
    requires i <= |xs|
    ensures multiset(xs[i..])[x] == |Places(xs, x, i)|
    decreases |xs| - i
  {
    if i < |xs| {
      CountPlaces(xs, x, i + 1);
      assert xs[i..] == [xs[i]] + xs[i + 1..];
      assert i !in Places(xs, x, i + 1);
    }
  }

  /** Descriptors, as pairs (process, index), of processes from p on that hold file f. */
  ghost function Holders(ofile: seq<seq<int>>, f: int): set<(nat, nat)>
  {
    set p: nat, fd: nat | p < |ofile| && fd < |ofile[p]| && ofile[p][fd] == f :: (p, fd)
  }

  ghost function Shifted(s: set<(nat, nat)>): set<(nat, nat)>
  {
    set q | q in s :: (q.0 + 1, q.1)
  }

  ghost function InRow(s: set<nat>): (r: set<(nat, nat)>)
    ensures forall p: nat, k: nat :: (p, k) in r <==> p == 0 && k in s
  {
    set k: nat | k in s :: (0, k)
  }

  lemma {:induction false} ShiftedCard(s: set<(nat, nat)>)
    ensures |Shifted(s)| == |s|
    decreases |s|
  {
    if s != {} {
      var q :| q in s;
      ShiftedCard(s - {q});
      assert Shifted(s) == Shifted(s - {q}) + {(q.0 + 1, q.1)};
      assert (q.0 + 1, q.1) !in Shifted(s - {q});
    }
  }

  lemma {:induction false} InRowCard(s: set<nat>)
    ensures |InRow(s)| == |s|
    decreases |s|
  {
    if s != {} {
      var k :| k in s;
      InRowCard(s - {k});
      var q: (nat, nat) := (0, k);
      forall x | x in InRow(s)
        ensures x in InRow(s - {k}) + {q}
      {
        assert x == (x.0, x.1);
      }
      assert InRow(s) == InRow(s - {k}) + {q};
      assert q !in InRow(s - {k});
    }
  }

  /** The multiset counts descriptors one by one. */
  lemma {:induction false} HoldingCounts(ofile: seq<seq<int>>, f: int)
    ensures Holding(ofile)[f] == |Holders(ofile, f)|
  {
    if ofile == [] {
      assert Holders(ofile, f) == {};
    } else {
      var rest := Holders(ofile[1..], f);
      var row := Places(ofile[0], f, 0);
      HoldingCounts(ofile[1..], f);
      CountPlaces(ofile[0], f, 0);
      assert ofile[0][0..] == ofile[0];
      ShiftedCard(rest);
      InRowCard(row);
      HoldersSplit(ofile, f);
    }
  }

  /** The holders in the first row, and those in the other rows. */
  lemma HoldersSplit(ofile: seq<seq<int>>, f: int)
    requires ofile != []
    ensures Holders(ofile, f) == InRow(Places(ofile[0], f, 0)) + Shifted(Holders(ofile[1..], f))
    ensures InRow(Places(ofile[0], f, 0)) !! Shifted(Holders(ofile[1..], f))
  {
    var rest := Holders(ofile[1..], f);
    var row := Places(ofile[0], f, 0);
    forall p: nat, fd: nat
      ensures (p, fd) in Holders(ofile, f) <==> (p, fd) in InRow(row) || (p, fd) in Shifted(rest)
    {
      if p > 0 {
        assert (p, fd) in Shifted(rest) <==> (p - 1, fd) in rest;
      }
    }
  }

  // ---------------------------------------------------------------- the invariant of the tables

  /** An open file: its inode is cached, its offset is inside the file, and a writable file is no directory. */
  ghost predicate OpenOk(F: File, icache: seq<Inode>, ino: seq<Dinode>)
  {
    |icache| == 50 && 0 <= F.ip < 50 && icache[F.ip].ref > 0 && Live(ino, icache[F.ip].inum) &&
    F.off <= ino[icache[F.ip].inum].size && (F.writable ==> ino[icache[F.ip].inum].kind != T_DIR)
  }

  ghost predicate TableShape(ftable: seq<File>, ofile: seq<seq<int>>)
  {
    |ftable| == 100 && |ofile| == 64 && (forall p :: 0 <= p < 64 ==> |ofile[p]| == 16) &&
    forall p, fd :: 0 <= p < 64 && 0 <= fd < 16 ==> -1 <= ofile[p][fd] < 100
  }

  /**
   The reference counts are exact: a file's is the number of descriptors that hold it,
   and `refs`, those of the inode cache, are the numbers of files that point there.
   */
  ghost predicate FilesOk(ftable: seq<File>, ofile: seq<seq<int>>, refs: seq<nat>, icache: seq<Inode>, ino: seq<Dinode>)
  {
    TableShape(ftable, ofile) && HeldExactly(ftable, Holding(ofile)) &&
    AllOpenOk(ftable, icache, ino) && PointedExactly(refs, Pointing(ftable))
  }

  ghost predicate HeldExactly(ftable: seq<File>, held: multiset<int>)
  {
    forall f :: 0 <= f < |ftable| ==> ftable[f].ref == held[f]
  }

  ghost predicate PointedExactly(refs: seq<nat>, pointed: multiset<int>)
  {
    |refs| == 50 && forall s :: 0 <= s < 50 ==> refs[s] == pointed[s]
  }

  /**
   Read back as cardinalities: a file's reference count is the number of descriptors that
   hold it, and a cache entry's is the number of open files that point at it.
   */
  lemma CountsAreExact(ftable: seq<File>, ofile: seq<seq<int>>, refs: seq<nat>, icache: seq<Inode>, ino: seq<Dinode>)
    requires FilesOk(ftable, ofile, refs, icache, ino)
    ensures forall f :: 0 <= f < 100 ==> ftable[f].ref == |Holders(ofile, f)|
    ensures forall s :: 0 <= s < 50 ==> refs[s] == |PointersTo(ftable, s)|
  {
    forall f | 0 <= f < 100
      ensures ftable[f].ref == |Holders(ofile, f)|
    {
      HoldingCounts(ofile, f);
    }
    forall s | 0 <= s < 50
      ensures refs[s] == |PointersTo(ftable, s)|
    {
      CountPlaces(Ips(ftable), s, 0);
      assert Ips(ftable)[0..] == Ips(ftable);
      assert PointersTo(ftable, s) == Places(Ips(ftable), s, 0);
    }
  }

  /** The open files that point at cache entry s. */
  ghost function PointersTo(ftable: seq<File>, s: nat): set<nat>
  {
    set f: nat | f < |ftable| && ftable[f].ref > 0 && ftable[f].ip == s
  }

  /** A slot is either free, with all fields cleared, or an open file. */
  ghost predicate AllOpenOk(ftable: seq<File>, icache: seq<Inode>, ino: seq<Dinode>)
  {
    forall f :: 0 <= f < |ftable| ==>
      if ftable[f].ref == 0 then ftable[f] == FreeFile() else OpenOk(ftable[f], icache, ino)
  }

  /** Inodes stay, keep their type, and do not shrink. */
  ghost predicate Monotone(ino: seq<Dinode>, ino': seq<Dinode>)
  {
    |ino'| == |ino| &&
    forall k :: Live(ino, k) ==> Live(ino', k) && ino'[k].kind == ino[k].kind && ino'[k].size >= ino[k].size
  }

  /** Entries some file points at keep their inode. */
  ghost predicate Pinned(refs: seq<nat>, icache: seq<Inode>, icache': seq<Inode>)
  {
    |icache| == |icache'| == |refs| &&
    forall s :: 0 <= s < |refs| && refs[s] > 0 ==> icache'[s].ref > 0 && icache'[s].inum == icache[s].inum
  }

  lemma FilesKept(ftable: seq<File>, ofile: seq<seq<int>>, refs: seq<nat>, icache: seq<Inode>, ino: seq<Dinode>,
                  icache': seq<Inode>, ino': seq<Dinode>)
    requires FilesOk(ftable, ofile, refs, icache, ino) && Monotone(ino, ino') && Pinned(refs, icache, icache')
    ensures FilesOk(ftable, ofile, refs, icache', ino')
  {
    forall f | 0 <= f < 100 && ftable[f].ref > 0
      ensures OpenOk(ftable[f], icache', ino')
    {
      assert Ips(ftable)[f] == ftable[f].ip;
      assert ftable[f].ip in Pointing(ftable);
    }
  }

  lemma ShapeKept(ftable: seq<File>, ofile: seq<seq<int>>, f: nat, F: File, p: nat, fd: nat, x: int)
    requires TableShape(ftable, ofile) && f < 100 && p < 64 && fd < 16 && -1 <= x < 100
    ensures TableShape(ftable[f := F], ofile[p := ofile[p][fd := x]])
  {
    var ofile' := ofile[p := ofile[p][fd := x]];
    assert forall q, e :: 0 <= q < 64 && 0 <= e < 16 ==> ofile'[q][e] == if q == p && e == fd then x else ofile[q][e];
  }

  /** A free file installed in a free descriptor accounts for one more reference to its inode. */
  lemma FilesOpened(ftable: seq<File>, ofile: seq<seq<int>>, refs: seq<nat>, icache: seq<Inode>, ino: seq<Dinode>,
                    f: nat, p: nat, fd: nat, F: File)
    requires FilesOk(ftable, ofile, refs, icache, ino)
    requires f < 100 && ftable[f].ref == 0 && p < 64 && fd < 16 && ofile[p][fd] == -1
    requires F.ref == 1 && OpenOk(F, icache, ino)
    ensures FilesOk(ftable[f := F], ofile[p := ofile[p][fd := f]], refs[F.ip := refs[F.ip] + 1], icache, ino)
  {
    HoldingUpdate(ofile, p, fd, f);
    PointingUpdate(ftable, f, F);
    ShapeKept(ftable, ofile, f, F, p, fd, f);
    hide Holding, Pointing, OpenOk, TableShape;
    Recount(ftable, f, F, Holding(ofile), -1, f);
    Repoint(refs, Pointing(ftable), -1, F.ip);
  }

  /** A holder moved from x to y; only file f's count is affected besides, as F says. */
  lemma Recount(ftable: seq<File>, f: nat, F: File, held: multiset<int>, x: int, y: int)
    requires HeldExactly(ftable, held) && f < |ftable| && x in held
    requires (x == f && y == -1 && F.ref == ftable[f].ref - 1) || (x == -1 && y == f && F.ref == ftable[f].ref + 1)
    ensures HeldExactly(ftable[f := F], held - multiset{x} + multiset{y})
  {}

  lemma Repoint(refs: seq<nat>, pointed: multiset<int>, x: int, y: int)
    requires PointedExactly(refs, pointed) && x in pointed && ((x == -1 && 0 <= y < 50) || (0 <= x < 50 && y == -1))
    ensures 0 <= x ==> refs[x] > 0
    ensures PointedExactly(if x == -1 then refs[y := refs[y] + 1] else refs[x := refs[x] - 1],
                           pointed - multiset{x} + multiset{y})
  {}

  /** What fileclose leaves of a file. */
  function ClosedFile(F: File): File
  {
    if F.ref > 1 then F.(ref := F.ref - 1) else FreeFile()
  }

  lemma ClosedOpen(F: File, icache: seq<Inode>, ino: seq<Dinode>)
    requires OpenOk(F, icache, ino) && F.ref > 1
    ensures OpenOk(ClosedFile(F), icache, ino)
  {}

  /** The counts after a descriptor of file f is cleared. */
  lemma DescriptorCleared(ftable: seq<File>, ofile: seq<seq<int>>, p: nat, fd: nat)
    requires TableShape(ftable, ofile) && HeldExactly(ftable, Holding(ofile)) && p < 64 && fd < 16 && ofile[p][fd] != -1
    ensures 0 <= ofile[p][fd] < 100 && ftable[ofile[p][fd]].ref > 0
    ensures var f := ofile[p][fd];
      TableShape(ftable[f := ClosedFile(ftable[f])], ofile[p := ofile[p][fd := -1]]) &&
      HeldExactly(ftable[f := ClosedFile(ftable[f])], Holding(ofile[p := ofile[p][fd := -1]]))
  {
    var f := ofile[p][fd];
    HoldingUpdate(ofile, p, fd, -1);
    assert ftable[f].ref == Holding(ofile)[f] > 0;
    ShapeKept(ftable, ofile, f, ClosedFile(ftable[f]), p, fd, -1);
    hide Holding, TableShape;
    Recount(ftable, f, ClosedFile(ftable[f]), Holding(ofile), f, -1);
  }

  ghost function ClosedRefs(refs: seq<nat>, F: File): seq<nat>
    requires 0 <= F.ip < |refs| && refs[F.ip] > 0
  {
    if F.ref > 1 then refs else refs[F.ip := refs[F.ip] - 1]
  }

  lemma InodeReleased(ftable: seq<File>, refs: seq<nat>, icache: seq<Inode>, ino: seq<Dinode>, f: nat)
    requires |ftable| == 100 && AllOpenOk(ftable, icache, ino) && PointedExactly(refs, Pointing(ftable)) && f < 100
    requires ftable[f].ref > 0
    ensures 0 <= ftable[f].ip < 50 && refs[ftable[f].ip] > 0
    ensures AllOpenOk(ftable[f := ClosedFile(ftable[f])], icache, ino)
    ensures PointedExactly(ClosedRefs(refs, ftable[f]), Pointing(ftable[f := ClosedFile(ftable[f])]))
  {
    var F := ClosedFile(ftable[f]);
    ClosedAllOpen(ftable, icache, ino, f);
    PointingUpdate(ftable, f, F);
    hide Pointing, AllOpenOk;
    if ftable[f].ref == 1 {
      Repoint(refs, Pointing(ftable), ftable[f].ip, -1);
    } else {
      assert refs[ftable[f].ip] == Pointing(ftable)[ftable[f].ip];
    }
  }

  lemma ClosedAllOpen(ftable: seq<File>, icache: seq<Inode>, ino: seq<Dinode>, f: nat)
    requires |ftable| == 100 && AllOpenOk(ftable, icache, ino) && f < 100 && ftable[f].ref > 0
    ensures 0 <= ftable[f].ip < 50 && AllOpenOk(ftable[f := ClosedFile(ftable[f])], icache, ino)
  {
    assert OpenOk(ftable[f], icache, ino);
    if ftable[f].ref > 1 {
      ClosedOpen(ftable[f], icache, ino);
    }
    hide OpenOk;
  }

  /** Clearing a descriptor and closing its file accounts for one reference less. */
  lemma FilesClosed(ftable: seq<File>, ofile: seq<seq<int>>, refs: seq<nat>, icache: seq<Inode>, ino: seq<Dinode>,
                    p: nat, fd: nat)
    requires FilesOk(ftable, ofile, refs, icache, ino)
    requires p < 64 && fd < 16 && ofile[p][fd] != -1
    ensures 0 <= ofile[p][fd] < 100 && ftable[ofile[p][fd]].ref > 0
    ensures var F := ftable[ofile[p][fd]];
      0 <= F.ip < 50 && refs[F.ip] > 0 &&
      FilesOk(ftable[ofile[p][fd] := ClosedFile(F)], ofile[p := ofile[p][fd := -1]], ClosedRefs(refs, F), icache, ino)
  {
    hide Holding, Pointing, AllOpenOk, HeldExactly, PointedExactly;
    DescriptorCleared(ftable, ofile, p, fd);
    InodeReleased(ftable, refs, icache, ino, ofile[p][fd]);
  }

  /** The offset of an open file moves inside the file. */
  lemma FilesMoved(ftable: seq<File>, ofile: seq<seq<int>>, refs: seq<nat>, icache: seq<Inode>, ino: seq<Dinode>,
                   f: nat, off: nat)
    requires FilesOk(ftable, ofile, refs, icache, ino) && f < 100 && ftable[f].ref > 0
    requires off <= ino[icache[ftable[f].ip].inum].size
    ensures FilesOk(ftable[f := ftable[f].(off := off)], ofile, refs, icache, ino)
  {
    PointingUpdate(ftable, f, ftable[f].(off := off));
  }

  // ---------------------------------------------------------------- flags of open

  predicate Creates(omode: u32) { BitOf(omode, 9) }
  predicate Reads(omode: u32) { !BitOf(omode, 0) }
  predicate Writes(omode: u32) { BitOf(omode, 0) || BitOf(omode, 1) }

  /** The flags by the numbers a program passes: O_WRONLY is 1, O_RDWR is 2, and O_CREAT is 0x200. */
  lemma ModeBits(omode: u32)
    ensures Creates(omode) <==> omode / 512 % 2 == 1
    ensures Reads(omode) <==> omode % 2 == 0
    ensures Writes(omode) <==> omode % 4 != 0
  {
    hide BitOf;
    CreateBit(omode);
    AccessBits(omode);
  }

  lemma CreateBit(omode: nat)
    ensures BitOf(omode, 9) <==> omode / 512 % 2 == 1
  {
    hide BitOf;
    BitOfWeight(omode, 9);
    Pow2Of8();
    assert Pow2(9) == 512;
  }

  lemma AccessBits(omode: nat)
    ensures BitOf(omode, 0) <==> omode % 2 == 1
    ensures BitOf(omode, 0) || BitOf(omode, 1) <==> omode % 4 != 0
  {
    assert BitOf(omode, 1) <==> omode / 2 % 2 == 1;
  }

  ghost predicate Full(row: seq<int>)
  {
    forall i :: 0 <= i < |row| ==> row[i] != -1
  }

  ghost predicate NoFreeFile(ftable: seq<File>)
  {
    forall f :: 0 <= f < |ftable| ==> ftable[f].ref > 0
  }

  /**
   File k, new and empty, was entered under name n in directory d: d's map gained n, and
   every other file is as before.
   */
  ghost predicate Made(disk0: Disk, ino0: seq<Dinode>, disk: Disk, ino: seq<Dinode>, d: nat, n: Name, k: nat)
  {
    DirsOk(disk0, ino0) && DirsOk(disk, ino) && IsDir(ino0, d) && IsDir(ino, d) &&
    |ino| == |ino0| && 1 <= k < |ino0| && k < 0x1_0000 && k != d &&
    ino0[k].kind == 0 && ino[k] == ZeroDinode().(kind := T_FILE) &&
    (forall j :: 0 <= j < |ino0| && j != d && j != k ==> ino[j] == ino0[j]) &&
    (forall j :: 0 <= j < |ino0| ==> |ino0[j].addrs| == 13) &&
    SameFiles(disk0, disk, ino0, d) && ino[d].size >= ino0[d].size &&
    n !in DirOf(disk0, ino0, d) && DirOf(disk, ino, d) == DirOf(disk0, ino0, d)[n := k]
  }

  /** The new file: a plain one, of type 1, empty, without blocks and with no link counted. */
  lemma MadeFile(disk0: Disk, ino0: seq<Dinode>, disk: Disk, ino: seq<Dinode>, d: nat, n: Name, k: nat)
    requires Made(disk0, ino0, disk, ino, d, n, k)
    ensures ino[k] == Dinode(1, 0, 0, 0, 0, seq(13, i => 0))
  {
    assert ZeroDinode().addrs == seq(13, i => 0);
  }

  /** Directories' maps only gain the new name. */
  lemma MadeMaps(disk0: Disk, ino0: seq<Dinode>, disk: Disk, ino: seq<Dinode>, d: nat, n: Name, k: nat, j: nat)
    requires Made(disk0, ino0, disk, ino, d, n, k) && IsDir(ino0, j)
    ensures IsDir(ino, j) &&
      DirOf(disk, ino, j) == if j == d then DirOf(disk0, ino0, d)[n := k] else DirOf(disk0, ino0, j)
  {}

  /** The parent of a path is found again after a file was made in it. */
  lemma {:induction false} ParentStays(disk0: Disk, ino0: seq<Dinode>, disk: Disk, ino: seq<Dinode>, d: nat, n: Name,
                                       k: nat, j: nat, comps: seq<Name>)
    requires Made(disk0, ino0, disk, ino, d, n, k) && Live(ino0, j) && Live(ino, j)
    requires ParentOf(disk0, ino0, j, comps) == Some(d)
    ensures ParentOf(disk, ino, j, comps) == Some(d)
    decreases |comps|
  {
    hide DirOf, Made;
    MadeMaps(disk0, ino0, disk, ino, d, n, k, j);
    MadeTrees(disk0, ino0, disk, ino, d, n, k);
    if |comps| > 1 {
      DirTargets(disk0, ino0, j, comps[0]);
      var next := DirOf(disk0, ino0, j)[comps[0]];
      NewNameElsewhere(disk0, ino0, disk, ino, d, n, k);
      assert DirOf(disk, ino, j)[comps[0]] == next;
      DirTargets(disk, ino, j, comps[0]);
      ParentStays(disk0, ino0, disk, ino, d, n, k, next, comps[1..]);
    }
  }

  lemma MadeTrees(disk0: Disk, ino0: seq<Dinode>, disk: Disk, ino: seq<Dinode>, d: nat, n: Name, k: nat)
    requires Made(disk0, ino0, disk, ino, d, n, k)
    ensures DirsOk(disk0, ino0) && DirsOk(disk, ino) && IsDir(ino0, d) && IsDir(ino, d)
  {}

  lemma NewNameElsewhere(disk0: Disk, ino0: seq<Dinode>, disk: Disk, ino: seq<Dinode>, d: nat, n: Name, k: nat)
    requires Made(disk0, ino0, disk, ino, d, n, k)
    ensures IsDir(ino0, d) && DirsOk(disk0, ino0) && n !in DirOf(disk0, ino0, d)
  {}

  lemma NamesKeptLess(refs: seq<nat>, more: seq<nat>, a: seq<Inode>, b: seq<Inode>)
    requires NamesKept(more, a, b) && |refs| == |more| && forall s :: 0 <= s < |refs| ==> more[s] >= refs[s]
    ensures NamesKept(refs, a, b)
  {}

  class FileTable {
    const fs: FileSystem
    var ftable: seq<File>
    var ofile: seq<seq<int>>

    /** The invariant with the references of the inode cache given apart. */
    ghost predicate ValidFor(refs: seq<nat>)
      reads this, fs, fs.bc, fs.bc.vd
      ensures ValidFor(refs) ==> TableShape(ftable, ofile)
    {
      fs.Valid() && DirsOk(fs.bc.disk, fs.ino) && FilesOk(ftable, ofile, refs, fs.icache, fs.ino)
    }

    /** Every reference to a cached inode is that of an open file, and counts are exact. */
    ghost predicate Valid()
      reads this, fs, fs.bc, fs.bc.vd
      ensures Valid() ==> TableShape(ftable, ofile)
    {
      ValidFor(IRefs(fs.icache))
    }

    /** Boot: nothing is open. */
    constructor (fs: FileSystem)
      requires fs.Valid() && DirsOk(fs.bc.disk, fs.ino) && forall s :: 0 <= s < 50 ==> fs.icache[s].ref == 0
      ensures this.fs == fs && Valid()
    {
      this.fs := fs;
      ftable := seq(100, i => FreeFile());
      ofile := seq(64, p => seq(16, i => -1));
      new;
      NothingHeld(ofile);
      assert forall x :: x in Ips(ftable) ==> x == -1;
    }

    /** filealloc: the first free slot gets its first reference. */
    method Filealloc() returns (f: int)
      requires |ftable| == 100
      modifies this`ftable
      ensures f == -1 ==> ftable == old(ftable) && NoFreeFile(ftable)
      ensures f != -1 ==>
        0 <= f < 100 && old(ftable[f].ref) == 0 && ftable == old(ftable)[f := old(ftable[f]).(ref := 1)]
      ensures f != -1 ==> forall g :: 0 <= g < f ==> old(ftable[g].ref) > 0
    {
      f := 0;
      while f < 100
        invariant 0 <= f <= 100 && ftable == old(ftable) && forall g :: 0 <= g < f ==> ftable[g].ref > 0
      {
        if ftable[f].ref == 0 {
          ftable := ftable[f := ftable[f].(ref := 1)];
          return;
        }
        f := f + 1;
      }
      f := -1;
    }

    /** fileclose: the last reference clears the slot and drops the inode. */
    method Fileclose(f: nat)
      requires fs.Valid() && |ftable| == 100 && f < 100 && ftable[f].ref > 0
      requires ftable[f].ref == 1 && ftable[f].ip != -1 ==> 0 <= ftable[f].ip < 50 && fs.icache[ftable[f].ip].ref > 0
      modifies this`ftable, fs`icache
      ensures fs.Valid() && ftable == old(ftable)[f := ClosedFile(old(ftable[f]))]
      ensures old(ftable[f].ref == 1 && ftable[f].ip != -1) ==>
        IRefs(fs.icache) == IRefs(old(fs.icache))[old(ftable[f].ip) := IRefs(old(fs.icache))[old(ftable[f].ip)] - 1] &&
        SameNames(old(fs.icache), fs.icache)
      ensures !old(ftable[f].ref == 1 && ftable[f].ip != -1) ==> fs.icache == old(fs.icache)
    {
      hide FileSystem.Valid;
      ftable := ftable[f := ftable[f].(ref := ftable[f].ref - 1)];
      if ftable[f].ref > 0 {
        return;
      }
      var ip := ftable[f].ip;
      ftable := ftable[f := ftable[f].(kind := FD_NONE, ip := -1, off := 0, readable := false, writable := false)];
      if ip != -1 {
        fs.Iput(ip);
      }
    }

    // -------------------------------------------------------------- close

    predicate BadFd(p: nat, fd: int)
      requires p < |ofile| && |ofile[p]| == 16
      reads this
    {
      fd < 0 || fd >= 16 || ofile[p][fd] == -1
    }

    /** sys_close */
    method SysClose(p: nat, fd: int) returns (r: int)
      requires Valid() && p < 64
      modifies this, fs`icache
      ensures Valid()
      ensures r == (if old(BadFd(p, fd)) then -1 else 0)
      ensures r == -1 ==> ofile == old(ofile) && ftable == old(ftable) && fs.icache == old(fs.icache)
      ensures r == 0 ==> ofile == old(ofile)[p := old(ofile)[p][fd := -1]]
      ensures r == 0 ==>
        var f := old(ofile)[p][fd]; 0 <= f < 100 && ftable == old(ftable)[f := ClosedFile(old(ftable)[f])]
    {
      hide FileSystem.Valid, DirsOk, Holding, Pointing, HeldExactly, PointedExactly, AllOpenOk;
      if fd < 0 || fd >= 16 || ofile[p][fd] == -1 {
        return -1;
      }
      ghost var refs := IRefs(fs.icache);
      FilesClosed(ftable, ofile, refs, fs.icache, fs.ino, p, fd);
      Fileclose(ofile[p][fd]);
      ofile := ofile[p := ofile[p][fd := -1]];
      StillPinned(IRefs(fs.icache), old(fs.icache), fs.icache);
      FilesKept(ftable, ofile, IRefs(fs.icache), old(fs.icache), fs.ino, fs.icache, fs.ino);
      r := 0;
    }

    // -------------------------------------------------------------- open, second half

    /** sysfile.c:126-133: the first free descriptor of process p takes the file. */
    method TakeFd(p: nat, f: nat) returns (fd: int)
      requires |ofile| == 64 && p < 64 && |ofile[p]| == 16
      modifies this`ofile
      ensures fd == -1 ==> ofile == old(ofile) && Full(ofile[p])
      ensures fd != -1 ==> 0 <= fd < 16 && old(ofile)[p][fd] == -1 && ofile == old(ofile)[p := old(ofile)[p][fd := f]]
      ensures fd != -1 ==> forall e :: 0 <= e < fd ==> old(ofile)[p][e] != -1
    {
      fd := -1;
      var i := 0;
      while i < 16
        invariant 0 <= i <= 16 && ofile == old(ofile) && forall e :: 0 <= e < i ==> ofile[p][e] != -1
      {
        if ofile[p][i] == -1 {
          ofile := ofile[p := ofile[p][i := f]];
          fd := i;
          return;
        }
        i := i + 1;
      }
    }

    /**
     The lowest free descriptor of process p holds a free slot of the file table, open on cache
     entry ip from offset 0.
     */
    twostate predicate OpenedAt(p: nat, fd: int, omode: u32, ip: nat)
      requires old(TableShape(ftable, ofile)) && TableShape(ftable, ofile) && p < 64
      reads this
    {
      0 <= fd < 16 && old(ofile)[p][fd] == -1 && (forall e :: 0 <= e < fd ==> old(ofile)[p][e] != -1) &&
      var f := ofile[p][fd];
      0 <= f < 100 && old(ftable[f].ref) == 0 && ofile == old(ofile)[p := old(ofile)[p][fd := f]] &&
      ftable == old(ftable)[f := File(FD_INODE, 1, Reads(omode), Writes(omode), ip, 0)]
    }

    /** iput of the one reference that no open file has. */
    method GiveBack(ip: nat, ghost refs: seq<nat>)
      requires ValidFor(refs) && ip < 50 && |refs| == 50 && IRefs(fs.icache) == refs[ip := refs[ip] + 1]
      modifies fs`icache
      ensures Valid() && IRefs(fs.icache) == refs
    {
      hide FileSystem.Valid, DirsOk, FilesOk;
      DropRef(refs, ip);
      fs.Iput(ip);
      StillPinned(refs, old(fs.icache), fs.icache);
      FilesKept(ftable, ofile, refs, old(fs.icache), fs.ino, fs.icache, fs.ino);
    }

    /**
     sysfile.c:119-150: hand the inode to a new open file and descriptor, or give its
     reference back when either table is full.
     */
    method InstallFile(p: nat, ip: nat, omode: u32, ghost refs: seq<nat>) returns (fd: int)
      requires ValidFor(refs) && p < 64 && ip < 50 && IRefs(fs.icache) == refs[ip := refs[ip] + 1] && |refs| == 50
      requires Live(fs.ino, fs.icache[ip].inum) && (Writes(omode) ==> fs.ino[fs.icache[ip].inum].kind != T_DIR)
      modifies this, fs`icache
      ensures Valid()
      ensures fd == -1 <==> NoFreeFile(old(ftable)) || Full(old(ofile)[p])
      ensures fd == -1 ==> ftable == old(ftable) && ofile == old(ofile) && IRefs(fs.icache) == refs
      ensures fd != -1 ==> OpenedAt(p, fd, omode, ip) && fs.icache == old(fs.icache)
      ensures fd != -1 ==> var F := ftable[ofile[p][fd]];
        F.kind == 1 && F.ref == 1 && F.ip == ip && F.off == 0 &&
        (F.readable <==> omode % 2 == 0) && (F.writable <==> omode % 4 != 0)
    {
      hide FileSystem.Valid, DirsOk, Holding, Pointing, HeldExactly, PointedExactly, BitOf;
      ModeBits(omode);
      var f := Filealloc();
      if f == -1 {
        GiveBack(ip, refs);
        return -1;
      }
      assert old(ftable[f]) == FreeFile();
      fd := TakeFd(p, f);
      if fd == -1 {
        Fileclose(f);
        assert ftable == old(ftable);
        GiveBack(ip, refs);
        return;
      }
      ftable := ftable[f := ftable[f].(kind := FD_INODE, ip := ip, off := 0,
                                       readable := Reads(omode), writable := Writes(omode))];
      FilesOpened(old(ftable), old(ofile), refs, fs.icache, fs.ino, f, p, fd, ftable[f]);
      assert ftable == old(ftable)[f := ftable[f]];
      assert IRefs(fs.icache) == refs[ip := refs[ip] + 1];
    }

    // -------------------------------------------------------------- open, first half

    /** sysfile.c:108-115: an existing file; a directory only with no flags at all. */
    method OpenExisting(path: seq<byte>, omode: u32) returns (r: Option<nat>)
      requires Valid() && PathFits(fs.bc.disk, fs.ino, fs.icache, path, false)
      requires forall k :: 0 <= k < |path| ==> path[k] != 0
      modifies fs`icache, fs.bc, fs.bc.vd
      ensures ValidFor(IRefs(old(fs.icache))) && fs.bc.disk == old(fs.bc.disk)
      ensures var w := Walk(fs.bc.disk, fs.ino, ROOTINO, Components(path));
        (r.None? <==> w.None? || (IsDir(fs.ino, w.value) && omode != 0)) &&
        (r.Some? ==> At(fs, r.value) && fs.icache[r.value].inum == w.value)
      ensures r.None? ==> IRefs(fs.icache) == IRefs(old(fs.icache))
      ensures r.Some? ==> IRefs(fs.icache) == IRefs(old(fs.icache))[r.value := IRefs(old(fs.icache))[r.value] + 1]
    {
      hide FileSystem.Valid, DirsOk, IcacheOk, FilesOk, Walk, Components, Spare2, NamesKept, SameNames, Pinned, FsInv,
        OnDisk;
      ghost var refs, ic0 := IRefs(fs.icache), fs.icache;
      r := Namei(fs, path);
      if r.None? {
        TablesKept(refs, ic0, fs.ino);
        return;
      }
      var ip := r.value;
      ghost var ic1 := fs.icache;
      DropRef(refs, ip);
      fs.Ilock(ip);
      NamesKeptBy(refs, ic1, fs.icache);
      NamesKeptTrans(refs, ic0, ic1, fs.icache);
      if fs.icache[ip].di.kind == T_DIR && omode != 0 {
        ghost var ic2 := fs.icache;
        fs.Iput(ip);
        NamesKeptBy(refs, ic2, fs.icache);
        NamesKeptTrans(refs, ic0, ic2, fs.icache);
        r := None;
      }
      TablesKept(refs, ic0, fs.ino);
    }

    /**
     What O_CREAT takes in directory d: if the name is new, a free inode, room for the entry
     and a cache entry besides that of d; else only the cache entry of the file.
     */
    static predicate CreateFits(sb: SuperBlock, disk: Disk, ino: seq<Dinode>, icache: seq<Inode>, d: nat, name: Name)
      requires DirsOk(disk, ino) && IsDir(ino, d)
    {
      if name in DirOf(disk, ino, d) then CanStep(icache, d, DirOf(disk, ino, d)[name])
      else SomeFreeInode(ino) && DirRoom(sb, disk, ino[d]) && SpareBeside(icache, d)
    }

    /** What O_CREAT needs for this path. */
    static predicate CanCreate(sb: SuperBlock, disk: Disk, ino: seq<Dinode>, icache: seq<Inode>, path: seq<byte>)
      requires DirsOk(disk, ino)
    {
      RootIsDir(disk, ino);
      var comps := Components(path);
      var d := ParentOf(disk, ino, ROOTINO, comps);
      d.Some? && IsDir(ino, d.value) && comps != [] ==> CreateFits(sb, disk, ino, icache, d.value, LastOf(comps))
    }

    /** No search of open for a cache entry, an inode or a block runs out, so none of its panics is reached. */
    static predicate OpenFits(sb: SuperBlock, disk: Disk, ino: seq<Dinode>, icache: seq<Inode>, path: seq<byte>,
                              omode: u32)
      requires DirsOk(disk, ino)
    {
      PathFits(disk, ino, icache, path, Creates(omode)) && (Creates(omode) ==> CanCreate(sb, disk, ino, icache, path))
    }

    /** sysfile.c:84-94: the name exists; directories and devices are refused. */
    method OpenFound(dp: nat, ip: nat, ghost refs: seq<nat>) returns (r: Option<nat>)
      requires At(fs, dp) && At(fs, ip) && |refs| == 50 && FilesOk(ftable, ofile, refs, fs.icache, fs.ino)
      requires IRefs(fs.icache) == refs[dp := refs[dp] + 1][ip := refs[dp := refs[dp] + 1][ip] + 1]
      modifies fs`icache, fs.bc, fs.bc.vd
      ensures ValidFor(refs) && fs.bc.disk == old(fs.bc.disk)
      ensures var k := old(fs.icache[ip].inum);
        r.None? <==> fs.ino[k].kind == T_DIR || fs.ino[k].kind == T_DEVICE
      ensures r.None? ==> IRefs(fs.icache) == refs
      ensures r.Some? ==> r.value == ip && At(fs, ip) && fs.icache[ip].inum == old(fs.icache[ip].inum)
      ensures r.Some? ==> IRefs(fs.icache) == refs[ip := refs[ip] + 1]
    {
      hide FileSystem.Valid, DirsOk, IcacheOk, FilesOk, NamesKept, SameNames, Pinned, FsInv, OnDisk;
      ghost var ic0 := fs.icache;
      StepRefs(refs, dp, ip);
      ghost var k := fs.icache[ip].inum;
      fs.Iput(dp);
      NamesKeptBy(refs, ic0, fs.icache);
      StillNamed(ic0, fs.icache, ip);
      ghost var ic1 := fs.icache;
      DropRef(refs, ip);
      fs.Ilock(ip);
      NamesKeptBy(refs, ic1, fs.icache);
      NamesKeptTrans(refs, ic0, ic1, fs.icache);
      r := Some(ip);
      if fs.icache[ip].di.kind == T_DIR || fs.icache[ip].di.kind == T_DEVICE {
        ghost var ic2 := fs.icache;
        fs.Iput(ip);
        NamesKeptBy(refs, ic2, fs.icache);
        NamesKeptTrans(refs, ic0, ic2, fs.icache);
        r := None;
      }
      TablesKept(refs, ic0, fs.ino);
    }

    lemma StillNamed(a: seq<Inode>, b: seq<Inode>, s: nat)
      requires SameNames(a, b) && s < |a| && a[s].ref > 0
      ensures b[s].inum == a[s].inum
    {}

    /** sysfile.c:97-104: the name is new; an empty file takes it. */
    method OpenNew(dp: nat, name: seq<byte>, ghost refs: seq<nat>) returns (ip: nat)
      requires AtDir(fs, dp) && |name| == 14 && Canon(name) !in DirAt(fs, dp) && |refs| == 50
      requires FilesOk(ftable, ofile, refs, fs.icache, fs.ino)
      requires SomeFreeInode(fs.ino) && DirRoom(fs.sb, fs.bc.disk, fs.icache[dp].di)
      requires IRefs(fs.icache) == refs[dp := refs[dp] + 1] && Spare(IRefs(fs.icache))
      modifies fs`icache, fs`ino, fs.bc, fs.bc.vd
      ensures ValidFor(refs) && ip < 50 && IRefs(fs.icache) == refs[ip := refs[ip] + 1]
      ensures Made(old(fs.bc.disk), old(fs.ino), fs.bc.disk, fs.ino, old(fs.icache[dp].inum), Canon(name),
                   fs.icache[ip].inum)
    {
      hide FileSystem.Valid, DirsOk, IcacheOk, FilesOk, NamesKept, SameNames, Pinned, FsInv, OnDisk, Canon, DirMap,
        Content,
        SameFiles, Spare, DirRoom, SomeFreeInode, ZeroDinode, FreeBlocks;
      ghost var ic0, ino0, disk0 := fs.icache, fs.ino, fs.bc.disk;
      TableBound(fs);
      DirAtIsDirOf(fs, dp);
      ip := CreateFile(fs, dp, name);
      NamesKeptLess(refs, IRefs(ic0), ic0, fs.icache);
      DirAtIsDirOf(fs, dp);
      ghost var ic1 := fs.icache;
      StepRefs(refs, dp, ip);
      fs.Iput(dp);
      NamesKeptBy(refs, ic1, fs.icache);
      NamesKeptTrans(refs, ic0, ic1, fs.icache);
      StillNamed(ic1, fs.icache, ip);
      ghost var ic2 := fs.icache;
      fs.Ilock(ip);
      NamesKeptBy(refs, ic2, fs.icache);
      NamesKeptTrans(refs, ic0, ic2, fs.icache);
      TablesKept(refs, ic0, ino0);
    }

    /** O_CREAT in directory d: the inode under an existing name unless it is a directory or a device, or a new file. */
    static ghost predicate CreatedIn(disk0: Disk, ino0: seq<Dinode>, disk: Disk, ino: seq<Dinode>, d: nat, name: Name,
                                     r: Option<nat>)
      requires DirsOk(disk0, ino0) && IsDir(ino0, d)
    {
      if name in DirOf(disk0, ino0, d) then
        var k := DirOf(disk0, ino0, d)[name];
        disk == disk0 && ino == ino0 && k < |ino0| &&
        r == if ino0[k].kind == T_DIR || ino0[k].kind == T_DEVICE then None else Some(k as nat)
      else r.Some? && Made(disk0, ino0, disk, ino, d, name, r.value)
    }

    /** What open with O_CREAT gives, from the tree before to the tree after. */
    static ghost predicate CreateResult(disk0: Disk, ino0: seq<Dinode>, disk: Disk, ino: seq<Dinode>, comps: seq<Name>,
                                        r: Option<nat>)
      requires DirsOk(disk0, ino0)
    {
      var d := ParentOf(disk0, ino0, ROOTINO, comps);
      if d.None? || comps == [] || !IsDir(ino0, d.value) then r.None? && disk == disk0 && ino == ino0
      else CreatedIn(disk0, ino0, disk, ino, d.value, LastOf(comps), r)
    }

    /** The inode number behind an optional cache entry. */
    ghost function InumOf(ip: Option<nat>): Option<nat>
      requires ip.Some? ==> ip.value < |fs.icache|
      reads this, fs
    {
      if ip.None? then None else Some(fs.icache[ip.value].inum)
    }

    /** sysfile.c:74-105: open with O_CREAT, up to the locked inode. */
    method OpenCreate(path: seq<byte>) returns (r: Option<nat>)
      requires Valid() && PathFits(fs.bc.disk, fs.ino, fs.icache, path, true)
      requires (forall k :: 0 <= k < |path| ==> path[k] != 0) && CanCreate(fs.sb, fs.bc.disk, fs.ino, fs.icache, path)
      modifies fs`icache, fs`ino, fs.bc, fs.bc.vd
      ensures ValidFor(IRefs(old(fs.icache))) && (r.Some? ==> r.value < 50)
      ensures CreateResult(old(fs.bc.disk), old(fs.ino), fs.bc.disk, fs.ino, Components(path), InumOf(r))
      ensures r.None? ==> IRefs(fs.icache) == IRefs(old(fs.icache))
      ensures r.Some? ==> IRefs(fs.icache) == IRefs(old(fs.icache))[r.value := IRefs(old(fs.icache))[r.value] + 1]
    {
      hide FileSystem.Valid, DirsOk, IcacheOk, FilesOk, ParentOf, Components, NamesKept, SameNames, Pinned, FsInv,
        OnDisk, Canon, DirMap, DirOf, Content, Made;
      ghost var refs, ic0 := IRefs(fs.icache), fs.icache;
      RootIsDir(fs.bc.disk, fs.ino);
      var dp, name := Namex(fs, path, true, seq(14, i => 0));
      TablesKept(refs, ic0, fs.ino);
      if dp.None? {
        return None;
      }
      r := OpenIn(dp.value, name, ic0, refs);
    }

    /** sysfile.c:81-105: in the parent directory, an existing file or a new one. */
    method OpenIn(dp: nat, name: seq<byte>, ghost ic0: seq<Inode>, ghost refs: seq<nat>) returns (r: Option<nat>)
      requires At(fs, dp) && IsDir(fs.ino, fs.icache[dp].inum) && |name| == 14 && |refs| == 50
      requires FilesOk(ftable, ofile, refs, fs.icache, fs.ino) && IRefs(fs.icache) == refs[dp := refs[dp] + 1]
      requires refs == IRefs(ic0) && NamesKept(refs, ic0, fs.icache)
      requires CreateFits(fs.sb, fs.bc.disk, fs.ino, ic0, fs.icache[dp].inum, Canon(name))
      modifies fs`icache, fs`ino, fs.bc, fs.bc.vd
      ensures ValidFor(refs) && (r.Some? ==> r.value < 50)
      ensures CreatedIn(old(fs.bc.disk), old(fs.ino), fs.bc.disk, fs.ino, old(fs.icache[dp].inum), Canon(name),
                        InumOf(r))
      ensures r.None? ==> IRefs(fs.icache) == refs
      ensures r.Some? ==> IRefs(fs.icache) == refs[r.value := refs[r.value] + 1]
    {
      hide FileSystem.Valid, DirsOk, IcacheOk, FilesOk, NamesKept, SameNames, Pinned, FsInv, OnDisk, Canon, DirMap,
        DirOf,
        Content, Made, CreateFits, CanGet, Spare, DirRoom, SomeFreeInode;
      ghost var ic1 := fs.icache;
      fs.Ilock(dp);
      NamesKeptBy(refs, ic1, fs.icache);
      NamesKeptTrans(refs, ic0, ic1, fs.icache);
      AtDirIntro(fs, dp);
      DirAtIsDirOf(fs, dp);
      ghost var ic2 := fs.icache;
      CreateFitsNow(dp, Canon(name), ic0);
      var next, off := Dirlookup(fs, dp, name);
      DirAtIsDirOf(fs, dp);
      NamesKeptBy(refs, ic2, fs.icache);
      NamesKeptTrans(refs, ic1, ic2, fs.icache);
      TablesKept(refs, ic1, fs.ino);
      if next.Some? {
        DirTargets(fs.bc.disk, fs.ino, fs.icache[dp].inum, Canon(name));
        r := OpenFound(dp, next.value, refs);
      } else {
        var made := OpenNew(dp, name, refs);
        r := Some(made);
      }
    }

    /** CreateFits, once the reference to the directory is held. */
    lemma CreateFitsNow(dp: nat, name: Name, ic0: seq<Inode>)
      requires DirsOk(fs.bc.disk, fs.ino) && dp < 50 && IcacheOk(fs.icache, fs.ino) && IsDir(fs.ino, fs.icache[dp].inum)
      requires NamesKept(IRefs(ic0), ic0, fs.icache) && IRefs(fs.icache) == IRefs(ic0)[dp := IRefs(ic0)[dp] + 1]
      requires CreateFits(fs.sb, fs.bc.disk, fs.ino, ic0, fs.icache[dp].inum, name)
      ensures var d := fs.icache[dp].inum;
        if name in DirOf(fs.bc.disk, fs.ino, d) then CanGet(fs.icache, DirOf(fs.bc.disk, fs.ino, d)[name])
        else SomeFreeInode(fs.ino) && DirRoom(fs.sb, fs.bc.disk, fs.ino[d]) && Spare(IRefs(fs.icache))
    {
      hide DirOf, CanGet, Spare, DirRoom, SomeFreeInode, NamesKept;
      var d := fs.icache[dp].inum;
      StepForetold(ic0, fs.icache, fs.ino, dp,
                   if name in DirOf(fs.bc.disk, fs.ino, d) then DirOf(fs.bc.disk, fs.ino, d)[name] as nat else 0);
    }

    /** open fails before it reaches the file tables. */
    static ghost predicate Refused(disk: Disk, ino: seq<Dinode>, comps: seq<Name>, omode: u32)
      requires DirsOk(disk, ino)
    {
      if Creates(omode) then
        var d := ParentOf(disk, ino, ROOTINO, comps);
        d.None? || comps == [] || !IsDir(ino, d.value) ||
        (LastOf(comps) in DirOf(disk, ino, d.value) &&
         var k := DirOf(disk, ino, d.value)[LastOf(comps)];
         k < |ino| && (ino[k].kind == T_DIR || ino[k].kind == T_DEVICE))
      else
        var w := Walk(disk, ino, ROOTINO, comps);
        w.None? || (IsDir(ino, w.value) && omode != 0)
    }

    /** When open refuses a path, by the numbers of its flags and of the inode types. */
    static lemma RefusedIs(disk: Disk, ino: seq<Dinode>, comps: seq<Name>, omode: u32)
      requires DirsOk(disk, ino) && Live(ino, 1)
      ensures omode / 512 % 2 == 0 ==>
        var w := Walk(disk, ino, 1, comps);
        (Refused(disk, ino, comps, omode) <==>
          w.None? || (omode != 0 && Live(ino, w.value) && ino[w.value].kind == 2))
      ensures omode / 512 % 2 == 1 ==>
        var d := ParentOf(disk, ino, 1, comps);
        (Refused(disk, ino, comps, omode) <==>
          d.None? || comps == [] || !IsDir(ino, d.value) ||
          (comps[|comps| - 1] in DirOf(disk, ino, d.value) &&
           var k := DirOf(disk, ino, d.value)[comps[|comps| - 1]];
           k < |ino| && (ino[k].kind == 2 || ino[k].kind == 3)))
    {
      ModeBits(omode);
    }

    /** sysfile.c:72-116: the inode to open, if any, with one reference. */
    method OpenTarget(path: seq<byte>, omode: u32) returns (r: Option<nat>)
      requires Valid() && OpenFits(fs.sb, fs.bc.disk, fs.ino, fs.icache, path, omode)
      requires (forall k :: 0 <= k < |path| ==> path[k] != 0)
      modifies fs`icache, fs`ino, fs.bc, fs.bc.vd
      ensures ValidFor(IRefs(old(fs.icache))) && Monotone(old(fs.ino), fs.ino)
      ensures r.None? <==> Refused(old(fs.bc.disk), old(fs.ino), Components(path), omode)
      ensures r.None? ==>
        IRefs(fs.icache) == IRefs(old(fs.icache)) && fs.bc.disk == old(fs.bc.disk) && fs.ino == old(fs.ino)
      ensures r.Some? ==>
        r.value < 50 && IRefs(fs.icache) == IRefs(old(fs.icache))[r.value := IRefs(old(fs.icache))[r.value] + 1]
      ensures r.Some? ==>
        Live(fs.ino, fs.icache[r.value].inum) && (Writes(omode) ==> fs.ino[fs.icache[r.value].inum].kind != T_DIR)
      ensures r.Some? ==> Walk(fs.bc.disk, fs.ino, ROOTINO, Components(path)) == Some(fs.icache[r.value].inum)
      ensures !Creates(omode) ==> fs.bc.disk == old(fs.bc.disk) && fs.ino == old(fs.ino)
      ensures Creates(omode) && r.Some? ==>
        CreateResult(old(fs.bc.disk), old(fs.ino), fs.bc.disk, fs.ino, Components(path), Some(fs.icache[r.value].inum))
    {
      hide FileSystem.Valid, FilesOk, ParentOf, Components, NamesKept, SameNames, Pinned, FsInv, OnDisk, Canon,
        DirMap, DirOf, Content, Spare2, BitOf;
      RootIsDir(fs.bc.disk, fs.ino);
      ghost var disk0, ino0, comps := fs.bc.disk, fs.ino, Components(path);
      if Creates(omode) {
        r := OpenCreate(path);
        CreatedMonotone(disk0, ino0, fs.bc.disk, fs.ino, comps, InumOf(r));
        if r.Some? {
          CreatedIsFound(disk0, ino0, fs.bc.disk, fs.ino, comps, fs.icache[r.value].inum);
        }
      } else {
        ModeBits(0);
        r := OpenExisting(path, omode);
      }
    }

    static lemma CreatedMonotone(disk0: Disk, ino0: seq<Dinode>, disk: Disk, ino: seq<Dinode>, comps: seq<Name>,
                                 r: Option<nat>)
      requires DirsOk(disk0, ino0) && Live(ino0, ROOTINO) && CreateResult(disk0, ino0, disk, ino, comps, r)
      ensures Monotone(ino0, ino)
    {
      hide Content, DirMap;
    }

    /** After O_CREAT the path leads to the file that was opened. */
    static lemma CreatedIsFound(disk0: Disk, ino0: seq<Dinode>, disk: Disk, ino: seq<Dinode>, comps: seq<Name>, k: nat)
      requires DirsOk(disk0, ino0) && DirsOk(disk, ino) && Live(ino0, ROOTINO) && Live(ino, ROOTINO) && Live(ino, k)
      requires CreateResult(disk0, ino0, disk, ino, comps, Some(k))
      ensures Walk(disk, ino, ROOTINO, comps) == Some(k) && ino[k].kind != T_DIR
    {
      hide Content, DirMap;
      var d := ParentOf(disk0, ino0, ROOTINO, comps);
      if LastOf(comps) !in DirOf(disk0, ino0, d.value) {
        ParentStays(disk0, ino0, disk, ino, d.value, LastOf(comps), k, ROOTINO, comps);
      }
      WalkThroughParent(disk, ino, ROOTINO, comps);
    }

    /** The inode the path leads to. */
    ghost function PathInode(path: seq<byte>): Option<nat>
      requires Valid()
      reads this, fs, fs.bc, fs.bc.vd
    {
      RootIsDir(fs.bc.disk, fs.ino);
      Walk(fs.bc.disk, fs.ino, ROOTINO, Components(path))
    }

    /** open of the path fails before it reaches the file tables. */
    ghost predicate OpenRefused(path: seq<byte>, omode: u32)
      requires Valid()
      reads this, fs, fs.bc, fs.bc.vd
    {
      Refused(fs.bc.disk, fs.ino, Components(path), omode)
    }

    /** What open does to the tree: nothing, unless O_CREAT meets a new name. */
    twostate predicate TreeAfterOpen(path: seq<byte>, omode: u32)
      requires old(Valid()) && Valid()
      reads this, fs, fs.bc, fs.bc.vd
    {
      if !Creates(omode) || old(OpenRefused(path, omode)) then fs.bc.disk == old(fs.bc.disk) && fs.ino == old(fs.ino)
      else CreateResult(old(fs.bc.disk), old(fs.ino), fs.bc.disk, fs.ino, Components(path), PathInode(path))
    }

    /** sys_open */
    method SysOpen(p: nat, path: seq<byte>, omode: u32) returns (fd: int)
      requires Valid() && p < 64 && OpenFits(fs.sb, fs.bc.disk, fs.ino, fs.icache, path, omode)
      requires (forall k :: 0 <= k < |path| ==> path[k] != 0)
      modifies this, fs`icache, fs`ino, fs.bc, fs.bc.vd
      ensures Valid() && Monotone(old(fs.ino), fs.ino) && TreeAfterOpen(path, omode)
      ensures fd == -1 <==> old(OpenRefused(path, omode) || NoFreeFile(ftable) || Full(ofile[p]))
      ensures fd == -1 ==> ftable == old(ftable) && ofile == old(ofile) && IRefs(fs.icache) == IRefs(old(fs.icache))
      ensures fd != -1 ==> exists ip: nat ::
        OpenedAt(p, fd, omode, ip) && ip < 50 && PathInode(path) == Some(fs.icache[ip].inum)
      ensures fd != -1 ==> 0 <= fd < 16 && 0 <= ofile[p][fd] < 100
      ensures fd != -1 ==> var F := ftable[ofile[p][fd]];
        F.kind == 1 && F.ref == 1 && F.off == 0 && (F.readable <==> omode % 2 == 0) && (F.writable <==> omode % 4 != 0)
      ensures omode / 512 % 2 == 0 || old(OpenRefused(path, omode)) ==>
        fs.bc.disk == old(fs.bc.disk) && fs.ino == old(fs.ino)
      ensures omode / 512 % 2 == 1 && !old(OpenRefused(path, omode)) ==>
        CreateResult(old(fs.bc.disk), old(fs.ino), fs.bc.disk, fs.ino, Components(path), PathInode(path))
    {
      hide FileSystem.Valid, HeldExactly, AllOpenOk, PointedExactly, Holding, Walk, Components, FsInv, OnDisk, DirMap,
        DirOf, Content, Spare2, BitOf, Refused, CreateResult, DirsOk;
      ghost var refs := IRefs(fs.icache);
      RootIsDir(fs.bc.disk, fs.ino);
      ModeBits(omode);
      var ip := OpenTarget(path, omode);
      if ip.None? {
        return -1;
      }
      fd := InstallFile(p, ip.value, omode, refs);
    }

    // -------------------------------------------------------------- read and write

    /** A C int passed as a uint. */
    static function Uint(n: int): (r: u32)
      ensures 0 <= n < 0x1_0000_0000 ==> r == n
      ensures -0x1_0000_0000 <= n < 0 ==> r == n + 0x1_0000_0000
    {
      n % 0x1_0000_0000
    }

    /** The inode number open file f refers to. */
    ghost function FileInum(f: nat): (k: nat)
      requires Valid() && f < 100 && ftable[f].ref > 0
      reads this, fs, fs.bc, fs.bc.vd
      ensures Live(fs.ino, k) && |fs.ino[k].addrs| == 13 && fs.ino[k].size <= 274432
    {
      OpenInode(f);
      fs.icache[ftable[f].ip].inum
    }

    /** The bytes of the inode open file f refers to. */
    ghost function FileBytes(f: nat): seq<byte>
      requires Valid() && f < 100 && ftable[f].ref > 0
      reads this, fs, fs.bc, fs.bc.vd
    {
      Content(fs.bc.disk, fs.ino[FileInum(f)])
    }

    lemma OpenInode(f: nat)
      requires Valid() && f < 100
      ensures ftable[f].ref > 0 ==>
        OpenOk(ftable[f], fs.icache, fs.ino) && |fs.ino[fs.icache[ftable[f].ip].inum].addrs| == 13 &&
        fs.ino[fs.icache[ftable[f].ip].inum].size <= 274432
    {
      if ftable[f].ref > 0 {
        var k := fs.icache[ftable[f].ip].inum;
        assert OpenOk(ftable[f], fs.icache, fs.ino);
        assert InodeInv(fs.sb, fs.bc.disk, fs.ino[k]);
      }
    }

    /** The file behind a descriptor in use. */
    ghost function FileOf(p: nat, fd: int): (f: nat)
      requires Valid() && p < 64 && !BadFd(p, fd)
      reads this, fs, fs.bc, fs.bc.vd
      ensures f < 100 && ftable[f].ref > 0 && f == ofile[p][fd]
    {
      HeldIsOpen(p, fd);
      ofile[p][fd]
    }

    /** fileread: -1 for a file not open for reading, else the bytes at the offset, which moves past them. */
    twostate predicate ReadThrough(f: nat, n: int, r: int, data: seq<byte>)
      requires old(Valid()) && f < 100 && old(ftable[f].ref) > 0
      reads this, fs, fs.bc, fs.bc.vd
    {
      if old(ftable[f].readable) then
        var c, off, m := old(FileBytes(f)), old(ftable[f].off), Uint(n);
        data == (if off > |c| || off + m >= 0x1_0000_0000 then []
                 else c[off..if off + m <= |c| then off + m else |c|]) &&
        r == |data| &&
        ftable == old(ftable)[f := old(ftable[f]).(off := old(ftable[f].off) + |data|)]
      else r == -1 && data == [] && ftable == old(ftable)
    }

    /** fileread */
    method Fileread(f: nat, n: int) returns (r: int, data: seq<byte>)
      requires Valid() && f < 100 && ftable[f].ref > 0 && -0x8000_0000 <= n < 0x8000_0000
      modifies this`ftable, fs`icache, fs.bc, fs.bc.vd
      ensures Valid() && fs.bc.disk == old(fs.bc.disk) && IRefs(fs.icache) == IRefs(old(fs.icache))
      ensures ReadThrough(f, n, r, data)
    {
      hide FileSystem.Valid, FilesOk, DirsOk, FsInv, OnDisk, Content, IcacheOk, SameNames, NamesKept, Pinned;
      OpenInode(f);
      data := [];
      if !ftable[f].readable {
        return -1, data;
      }
      ghost var refs, ic0 := IRefs(fs.icache), fs.icache;
      var ip := ftable[f].ip;
      fs.Ilock(ip);
      NamesKeptBy(refs, ic0, fs.icache);
      OffsetInRange(f, ic0);
      var tot;
      tot, data := fs.Readi(ip, ftable[f].off, Uint(n));
      TablesKept(refs, ic0, fs.ino);
      r := tot;
      assert ftable == ftable[f := ftable[f].(off := ftable[f].off + 0)];
      if r > 0 {
        FilesMoved(ftable, ofile, refs, fs.icache, fs.ino, f, ftable[f].off + tot);
        ftable := ftable[f := ftable[f].(off := ftable[f].off + tot)];
      }
    }

    /** The disk has the blocks a write of n bytes to open file f needs. */
    ghost predicate RoomToWrite(f: nat, n: nat)
      requires Valid() && f < 100 && ftable[f].ref > 0
      reads this, fs, fs.bc, fs.bc.vd
    {
      WriteFits(fs.sb, fs.bc.disk, fs.ino[FileInum(f)].size, ftable[f].off, n)
    }

    static predicate WriteFits(sb: SuperBlock, disk: Disk, size: nat, off: nat, n: nat)
    {
      FileSystem.TooFar(size, off, n) || off + n <= size ||
      BlocksFor(off + n) - BlocksFor(size) <= |FreeBlocks(sb, disk)|
    }

    /** Inode k alone was written; sizes do not shrink and no directory changed. */
    static ghost predicate OnlyFileGrew(disk0: Disk, ino0: seq<Dinode>, disk: Disk, ino: seq<Dinode>, k: nat)
    {
      |ino| == |ino0| && k < |ino| && ino == ino0[k := ino[k]] &&
      (forall j :: 0 <= j < |ino0| ==> |ino0[j].addrs| == 13) &&
      Monotone(ino0, ino) && SameFiles(disk0, disk, ino0, k) &&
      forall j :: IsDir(ino, j) ==>
        IsDir(ino0, j) && ino[j] == ino0[j] &&
        (ino0[j].size <= 274432 ==> Content(disk, ino[j]) == Content(disk0, ino0[j]))
    }

    /**
     filewrite: -1 and nothing changed exactly when the file is not open for writing or the
     write would end too far; else the bytes are at the offset, which moves past them, and
     only that inode's bytes changed.
     */
    twostate predicate WroteThrough(f: nat, src: seq<byte>, n: int, r: int)
      requires old(Valid()) && Valid() && f < 100 && old(ftable[f].ref) > 0
      reads this, fs, fs.bc, fs.bc.vd
    {
      var size, off, m := |old(FileBytes(f))|, old(ftable[f].off), Uint(n);
      if !old(ftable[f].writable) || off > size || off + m >= 0x1_0000_0000 || off + m > 274432 then
        r == -1 && fs.bc.disk == old(fs.bc.disk) && fs.ino == old(fs.ino) && ftable == old(ftable)
      else
        r == n && 0 <= n <= |src| && ftable == old(ftable)[f := old(ftable[f]).(off := off + n)] &&
        FileInum(f) == old(FileInum(f)) && FileBytes(f) == Written(old(FileBytes(f)), off, src[..n]) &&
        OnlyFileGrew(old(fs.bc.disk), old(fs.ino), fs.bc.disk, fs.ino, old(FileInum(f)))
    }

    /** filewrite */
    method Filewrite(f: nat, src: seq<byte>, n: int) returns (r: int)
      requires Valid() && f < 100 && ftable[f].ref > 0 && -0x8000_0000 <= n < 0x8000_0000
      requires Uint(n) <= 274432 ==> Uint(n) <= |src|
      requires ftable[f].writable ==> RoomToWrite(f, Uint(n))
      modifies this`ftable, fs`icache, fs`ino, fs.bc, fs.bc.vd
      ensures Valid() && IRefs(fs.icache) == IRefs(old(fs.icache)) && WroteThrough(f, src, n, r)
    {
      hide FileSystem.Valid, FilesOk, DirsOk, FsInv, OnDisk, Content, IcacheOk, SameNames, NamesKept, Pinned,
        FreeBlocks, BlocksFor, Monotone, SameFiles;
      OpenInode(f);
      if !ftable[f].writable {
        return -1;
      }
      ghost var refs, ic0 := IRefs(fs.icache), fs.icache;
      fs.Ilock(ftable[f].ip);
      NamesKeptBy(refs, ic0, fs.icache);
      NextNamed(ic0, fs.icache, ftable[f].ip);
      OffsetInRange(f, ic0);
      TablesKept(refs, ic0, fs.ino);
      r := WriteLocked(f, src, n);
    }

    /** file.c:150-155: writei at the offset, which moves past the bytes written. */
    method WriteLocked(f: nat, src: seq<byte>, n: int) returns (r: int)
      requires Valid() && f < 100 && ftable[f].ref > 0 && -0x8000_0000 <= n < 0x8000_0000
      requires Uint(n) <= 274432 ==> Uint(n) <= |src|
      requires ftable[f].writable && RoomToWrite(f, Uint(n)) && 0 <= ftable[f].ip < 50 && fs.Locked(ftable[f].ip)
      modifies this`ftable, fs`icache, fs`ino, fs.bc, fs.bc.vd
      ensures Valid() && IRefs(fs.icache) == IRefs(old(fs.icache)) && WroteThrough(f, src, n, r)
    {
      hide FileSystem.Valid, FilesOk, DirsOk, FsInv, OnDisk, Content, IcacheOk, SameNames, NamesKept, Pinned,
        FreeBlocks, BlocksFor, Monotone, SameFiles;
      OpenInode(f);
      ghost var refs, ic0, ino0, disk0 := IRefs(fs.icache), fs.icache, fs.ino, fs.bc.disk;
      var ip := ftable[f].ip;
      ghost var k := ic0[ip].inum;
      OffsetInRange(f, ic0);
      TableBound(fs);
      fs.ValidIsWriting(ip);
      r := fs.Writei(ip, src, ftable[f].off, Uint(n));
      assert ftable == ftable[f := ftable[f].(off := ftable[f].off + 0)];
      if r == -1 {
        MonotoneRefl(fs.ino);
        NamesKeptRefl(refs, ic0);
        TablesKept(refs, ic0, ino0);
        return;
      }
      WrittenLength(Content(disk0, ino0[k]), ftable[f].off, src[..r]);
      NamesKeptRefl(refs, ic0);
      DiChanged(refs, ic0, ic0, ip, fs.ino[k]);
      AfterWrite(refs, ic0, ino0, disk0, k);
      if r > 0 {
        FilesMoved(ftable, ofile, refs, fs.icache, fs.ino, f, ftable[f].off + r);
        ftable := ftable[f := ftable[f].(off := ftable[f].off + r)];
      }
    }

    lemma NamesKeptRefl(refs: seq<nat>, a: seq<Inode>)
      requires |refs| == |a|
      ensures NamesKept(refs, a, a)
    {}

    /** A descriptor in use holds an open file. */
    lemma HeldIsOpen(p: nat, fd: nat)
      requires Valid() && p < 64 && fd < 16 && ofile[p][fd] != -1
      ensures 0 <= ofile[p][fd] < 100 && ftable[ofile[p][fd]].ref > 0
    {
      HoldingUpdate(ofile, p, fd, -1);
    }

    /** sys_read */
    method SysRead(p: nat, fd: int, n: int) returns (r: int, data: seq<byte>)
      requires Valid() && p < 64 && -0x8000_0000 <= n < 0x8000_0000
      modifies this`ftable, fs`icache, fs.bc, fs.bc.vd
      ensures Valid() && fs.bc.disk == old(fs.bc.disk) && IRefs(fs.icache) == IRefs(old(fs.icache))
      ensures old(BadFd(p, fd)) ==> r == -1 && data == [] && ftable == old(ftable)
      ensures !old(BadFd(p, fd)) ==> ReadThrough(old(FileOf(p, fd)), n, r, data)
    {
      hide FileSystem.Valid, DirsOk, FilesOk, Content, ReadThrough;
      if fd < 0 || fd >= 16 || ofile[p][fd] == -1 {
        return -1, [];
      }
      HeldIsOpen(p, fd);
      r, data := Fileread(ofile[p][fd], n);
    }

    /** sys_write; descriptor 1 is the console while no file is open there. */
    method SysWrite(p: nat, fd: int, src: seq<byte>, n: int) returns (r: int)
      requires Valid() && p < 64 && -0x8000_0000 <= n < 0x8000_0000 && (Uint(n) <= 274432 ==> Uint(n) <= |src|)
      requires !BadFd(p, fd) && ftable[FileOf(p, fd)].writable ==> RoomToWrite(FileOf(p, fd), Uint(n))
      modifies this`ftable, fs`icache, fs`ino, fs.bc, fs.bc.vd
      ensures Valid() && IRefs(fs.icache) == IRefs(old(fs.icache))
      ensures old(BadFd(p, fd)) ==>
        r == (if fd == 1 then n else -1) && fs.bc.disk == old(fs.bc.disk) && fs.ino == old(fs.ino) &&
        ftable == old(ftable)
      ensures !old(BadFd(p, fd)) ==> WroteThrough(old(FileOf(p, fd)), src, n, r)
    {
      hide FileSystem.Valid, DirsOk, FilesOk, Content, WroteThrough;
      if fd == 1 && ofile[p][fd] == -1 {
        return n;
      }
      if fd < 0 || fd >= 16 || ofile[p][fd] == -1 {
        return -1;
      }
      HeldIsOpen(p, fd);
      r := Filewrite(ofile[p][fd], src, n);
    }

    /** The tables and all directories are as good as before once one non-directory grew. */
    lemma AfterWrite(refs: seq<nat>, ic0: seq<Inode>, ino0: seq<Dinode>, disk0: Disk, k: nat)
      requires FilesOk(ftable, ofile, refs, ic0, ino0) && DirsOk(disk0, ino0) && Live(ino0, k) && ino0[k].kind != T_DIR
      requires |fs.ino| == |ino0| && fs.ino == ino0[k := fs.ino[k]] && fs.ino[k].kind == ino0[k].kind
      requires fs.ino[k].size >= ino0[k].size
      requires (forall j :: 0 <= j < |ino0| ==> |ino0[j].addrs| == 13) && SameFiles(disk0, fs.bc.disk, ino0, k)
      requires NamesKept(refs, ic0, fs.icache) && forall s :: 0 <= s < |refs| ==> IRefs(fs.icache)[s] >= refs[s]
      ensures FilesOk(ftable, ofile, refs, fs.icache, fs.ino) && DirsOk(fs.bc.disk, fs.ino)
      ensures OnlyFileGrew(disk0, ino0, fs.bc.disk, fs.ino, k)
    {
      hide FilesOk, Content, SameFiles;
      OneFileGrew(disk0, ino0, fs.bc.disk, fs.ino, k);
      TablesKept(refs, ic0, ino0);
    }

    lemma DiChanged(refs: seq<nat>, a: seq<Inode>, b: seq<Inode>, ip: nat, d: Dinode)
      requires NamesKept(refs, a, b) && ip < |b|
      ensures NamesKept(refs, a, b[ip := b[ip].(di := d)]) && IRefs(b[ip := b[ip].(di := d)]) == IRefs(b)
    {}

    lemma MonotoneRefl(ino: seq<Dinode>)
      ensures Monotone(ino, ino)
    {}

    lemma OffsetInRange(f: nat, ic0: seq<Inode>)
      requires f < |ftable| && OpenOk(ftable[f], ic0, fs.ino) && fs.ino[ic0[ftable[f].ip].inum].size <= 274432
      ensures 0 <= ftable[f].off < 0x1_0000_0000
    {}

    /** The tables stay right when pinned entries keep their names and inodes only grow. */
    lemma TablesKept(refs: seq<nat>, icache: seq<Inode>, ino: seq<Dinode>)
      requires FilesOk(ftable, ofile, refs, icache, ino) && Monotone(ino, fs.ino)
      requires NamesKept(refs, icache, fs.icache) && forall s :: 0 <= s < |refs| ==> IRefs(fs.icache)[s] >= refs[s]
      ensures FilesOk(ftable, ofile, refs, fs.icache, fs.ino)
    {
      assert forall s :: 0 <= s < |refs| ==> IRefs(fs.icache)[s] == fs.icache[s].ref;
      FilesKept(ftable, ofile, refs, icache, ino, fs.icache, fs.ino);
    }
  }

  lemma OneFileGrew(disk0: Disk, ino0: seq<Dinode>, disk: Disk, ino: seq<Dinode>, k: nat)
    requires DirsOk(disk0, ino0) && Live(ino0, k) && |ino| == |ino0| && ino == ino0[k := ino[k]]
    requires (forall j :: 0 <= j < |ino0| ==> |ino0[j].addrs| == 13)
    requires ino[k].kind == ino0[k].kind != T_DIR && ino[k].size >= ino0[k].size && SameFiles(disk0, disk, ino0, k)
    ensures DirsOk(disk, ino) && Monotone(ino0, ino)
    ensures forall j ::
      IsDir(ino, j) ==> IsDir(ino0, j) && ino[j] == ino0[j] && Content(disk, ino[j]) == Content(disk0, ino0[j])
  {
    hide Content;
    forall j | IsDir(ino, j)
      ensures IsDir(ino0, j) && ino[j] == ino0[j] && Content(disk, ino[j]) == Content(disk0, ino0[j])
    {
      assert j != k;
    }
    DirsKept(disk0, ino0, disk, ino);
  }

  lemma NothingHeld(ofile: seq<seq<int>>)
    requires forall p :: 0 <= p < |ofile| ==> forall i :: 0 <= i < |ofile[p]| ==> ofile[p][i] == -1
    ensures forall f :: 0 <= f ==> Holding(ofile)[f] == 0
  {
    if ofile != [] {
      NothingHeld(ofile[1..]);
      assert forall x :: x in ofile[0] ==> x == -1;
    }
  }

  /** Entries that keep a reference keep their name. */
  lemma StillPinned(refs: seq<nat>, a: seq<Inode>, b: seq<Inode>)
    requires SameNames(a, b) && |a| == |refs| && IRefs(b) == refs
    requires forall s :: 0 <= s < |refs| && refs[s] > 0 ==> a[s].ref > 0
    ensures Pinned(refs, a, b)
  {
    assert forall s :: 0 <= s < |refs| ==> IRefs(b)[s] == b[s].ref;
  }
}

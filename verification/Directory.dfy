/**
 Directories: files made of 16-byte entries, seen as finite maps from names of at
 most 14 bytes to inode numbers (kernel/fs/fs.c:469-612).
 */
module Directory {
  import opened Layout
  import opened DiskModel
  import opened Bio
  import opened Fs

  type Name = seq<byte>

  // ---------------------------------------------------------------- names

  /** A name field or buffer up to its first NUL. */
  function Canon(n: seq<byte>): (r: Name)
    ensures |r| <= |n| && r == n[..|r|]
    ensures |r| < |n| ==> n[|r|] == 0
    ensures forall i :: 0 <= i < |r| ==> r[i] != 0
  {
    if n == [] || n[0] == 0 then [] else [n[0]] + Canon(n[1..])
  }

  lemma {:induction false} CanonIs(n: seq<byte>, k: nat)
    requires k <= |n| && (forall i :: 0 <= i < k ==> n[i] != 0) && (k == |n| || n[k] == 0)
    ensures Canon(n) == n[..k]
  {
    if k > 0 {
      CanonIs(n[1..], k - 1);
    }
  }

  /** Names that differ before either ends are different names. */
  lemma {:induction false} CanonDiffers(a: seq<byte>, b: seq<byte>, i: nat)
    requires i < |a| && i < |b| && a[i] != b[i] && forall j :: 0 <= j < i ==> a[j] == b[j] && a[j] != 0
    ensures Canon(a) != Canon(b)
  {
    if i > 0 {
      CanonDiffers(a[1..], b[1..], i - 1);
      assert Canon(a)[1..] == Canon(a[1..]) && Canon(b)[1..] == Canon(b[1..]);
    }
  }

  /** fs.c:505-509: the comparison loop decides equality of the names up to NUL. */
  method NamesMatch(a: seq<byte>, b: seq<byte>) returns (same: bool)
    requires |a| == 14 && |b| == 14
    ensures same <==> Canon(a) == Canon(b)
  {
    var i := 0;
    while i < 14
      invariant i <= 14 && forall j :: 0 <= j < i ==> a[j] == b[j] && a[j] != 0
    {
      if a[i] != b[i] {
        CanonDiffers(a, b, i);
        return false;
      }
      if b[i] == 0 {
        CanonIs(a, i);
        CanonIs(b, i);
        assert a[..i] == b[..i];
        return true;
      }
      i := i + 1;
    }
    assert a == b;
    return true;
  }

  /** A name filled up with zeros. */
  function Padded(n: Name): (r: seq<byte>)
    requires |n| <= 14
    ensures |r| == 14 && n <= r && forall i :: |n| <= i < 14 ==> r[i] == 0
  {
    n + seq(14 - |n|, i => 0)
  }

  /** fs.c:602-604: clear the field, then copy up to NUL. */
  method FillName(name: seq<byte>) returns (field: seq<byte>)
    requires |name| == 14
    ensures |field| == 14 && Canon(field) == Canon(name)
    ensures field == Padded(Canon(name))
  {
    field := seq(14, i => 0);
    var i := 0;
    while i < 14 && name[i] != 0
      invariant i <= 14 && |field| == 14
      invariant forall j :: 0 <= j < i ==> field[j] == name[j] && name[j] != 0
      invariant forall j :: i <= j < 14 ==> field[j] == 0
    {
      field := field[i := name[i]];
      i := i + 1;
    }
    CanonIs(field, i);
    CanonIs(name, i);
    assert field[..i] == name[..i];
    assert forall j :: i <= j < 14 ==> field[j] == Padded(Canon(name))[j];
  }

  // ---------------------------------------------------------------- entries

  function EntryInum(c: seq<byte>, i: nat): u16
    requires 16 * i + 16 <= |c|
  {
    c[16 * i] + 0x100 * (c[16 * i + 1] as int)
  }

  function EntryName(c: seq<byte>, i: nat): Name
    requires 16 * i + 16 <= |c|
  {
    Canon(c[16 * i + 2..16 * i + 16])
  }

  /** struct dirent as bytes. */
  function EncDirent(inum: u16, field: seq<byte>): (r: seq<byte>)
    requires |field| == 14
    ensures |r| == 16
  {
    Le16(inum) + field
  }

  function Entries(c: seq<byte>): nat { |c| / 16 }

  /** The directory from entry i on, as a map: the first entry of a name wins. */
  function DirMap(c: seq<byte>, i: nat): map<Name, u16>
    decreases Entries(c) - i
  {
    if i >= Entries(c) then map[]
    else if EntryInum(c, i) == 0 then DirMap(c, i + 1)
    else DirMap(c, i + 1)[EntryName(c, i) := EntryInum(c, i)]
  }

  /** One step of a scan for the name n. */
  lemma ScanStep(c: seq<byte>, i: nat, n: Name)
    ensures i >= Entries(c) ==> n !in DirMap(c, i)
    ensures i < Entries(c) && EntryInum(c, i) != 0 && EntryName(c, i) == n ==>
      n in DirMap(c, i) && DirMap(c, i)[n] == EntryInum(c, i)
    ensures i < Entries(c) && (EntryInum(c, i) == 0 || EntryName(c, i) != n) ==>
      (n in DirMap(c, i) <==> n in DirMap(c, i + 1)) && (n in DirMap(c, i) ==> DirMap(c, i)[n] == DirMap(c, i + 1)[n])
  {}

  ghost predicate UniqueNames(c: seq<byte>)
  {
    forall i, j {:trigger EntryName(c, i), EntryName(c, j)} ::
      0 <= i < j < Entries(c) && EntryInum(c, i) != 0 && EntryInum(c, j) != 0 ==>
        EntryName(c, i) != EntryName(c, j)
  }

  lemma {:induction false} NamesInMap(c: seq<byte>, i: nat, j: nat)
    requires i <= j < Entries(c) && EntryInum(c, j) != 0
    ensures EntryName(c, j) in DirMap(c, i)
    decreases j - i
  {
    if i < j {
      NamesInMap(c, i + 1, j);
    }
  }

  lemma EntryBytes(c: seq<byte>, i: nat)
    requires 16 * i + 16 <= |c|
    ensures EntryInum(c, i) == c[16 * i] + 0x100 * (c[16 * i + 1] as int)
    ensures EntryName(c, i) == Canon(c[16 * i + 2..16 * i + 16])
  {}

  /** A name of the map stands in bytes 2 to 15 of an entry, and its inode number in the two before. */
  lemma {:induction false} MapFromEntries(c: seq<byte>, i: nat, n: Name) returns (j: nat)
    requires n in DirMap(c, i)
    ensures i <= j < Entries(c) && EntryName(c, j) == n && EntryInum(c, j) == DirMap(c, i)[n] != 0
    ensures 16 * j + 16 <= |c| && n == Canon(c[16 * j + 2..16 * j + 16])
    ensures DirMap(c, i)[n] == c[16 * j] + 0x100 * (c[16 * j + 1] as int)
    decreases Entries(c) - i
  {
    hide Canon, EntryInum, EntryName;
    if EntryInum(c, i) != 0 && EntryName(c, i) == n {
      EntryBytes(c, i);
      j := i;
    } else {
      j := MapFromEntries(c, i + 1, n);
    }
  }

  /** With unique names every occupied entry is the one the map speaks of. */
  lemma {:induction false} MapIsEntries(c: seq<byte>, i: nat, j: nat)
    requires UniqueNames(c) && i <= j && 16 * j + 16 <= |c| && c[16 * j] + 0x100 * (c[16 * j + 1] as int) != 0
    ensures var n := Canon(c[16 * j + 2..16 * j + 16]);
      n in DirMap(c, i) && DirMap(c, i)[n] == c[16 * j] + 0x100 * (c[16 * j + 1] as int)
    decreases j - i
  {
    assert EntryName(c, j) == Canon(c[16 * j + 2..16 * j + 16]);
    if i < j {
      MapIsEntries(c, i + 1, j);
    }
  }

  // ---------------------------------------------------------------- adding an entry

  /** c' is c with the entry (inum, field) at slot i, which was empty or just past the end. */
  ghost predicate EntryAdded(c: seq<byte>, i: nat, inum: u16, field: seq<byte>, c': seq<byte>)
  {
    |field| == 14 && |c| % 16 == 0 && inum != 0 && i <= Entries(c) && (i < Entries(c) ==> EntryInum(c, i) == 0) &&
    c' == Written(c, 16 * i, EncDirent(inum, field))
  }

  /**
   The entry dirlink leaves, in bytes: the first empty slot of c, or a new one at its end, holds the
   inode number, lower byte first, and the name filled up with zeros; no other byte changes.
   */
  ghost predicate EntryLeft(c: seq<byte>, i: nat, inum: nat, n: Name, c': seq<byte>)
  {
    |n| <= 14 && inum < 0x1_0000 && 16 * i <= |c| && |c'| == (if 16 * i == |c| then |c| + 16 else |c|) &&
    (forall j :: 0 <= j < i ==> EntryInum(c, j) != 0) &&
    (16 * i < |c| ==> 16 * i + 16 <= |c| && EntryInum(c, i) == 0) &&
    c'[16 * i] == inum % 0x100 && c'[16 * i + 1] == inum / 0x100 &&
    (forall k :: 0 <= k < 14 ==> c'[16 * i + 2 + k] == if k < |n| then n[k] else 0) &&
    forall k :: 0 <= k < |c| && !(16 * i <= k < 16 * i + 16) ==> c'[k] == c[k]
  }

  lemma LeftByWrite(c: seq<byte>, i: nat, inum: u16, n: Name, c': seq<byte>)
    requires |n| <= 14 && EntryAdded(c, i, inum, Padded(n), c') && forall j :: 0 <= j < i ==> EntryInum(c, j) != 0
    ensures EntryLeft(c, i, inum, n, c')
  {
    var x := EncDirent(inum, Padded(n));
    assert x[0] == inum % 0x100 && x[1] == inum / 0x100;
    forall k | 0 <= k < 14
      ensures c'[16 * i + 2 + k] == if k < |n| then n[k] else 0
    {
      assert c'[16 * i + 2 + k] == x[2 + k] == Padded(n)[k];
    }
  }

  lemma AddedEntry(c: seq<byte>, i: nat, inum: u16, field: seq<byte>, c': seq<byte>, j: nat)
    requires EntryAdded(c, i, inum, field, c')
    ensures |c'| % 16 == 0 && Entries(c') == if i < Entries(c) then Entries(c) else Entries(c) + 1
    ensures j < Entries(c') ==>
      EntryInum(c', j) == (if j == i then inum else EntryInum(c, j)) &&
      EntryName(c', j) == (if j == i then Canon(field) else EntryName(c, j))
  {
    WrittenLength(c, 16 * i, EncDirent(inum, field));
    if j < Entries(c') {
      if j == i {
        NewEntry(c, i, inum, field, c');
      } else {
        OtherEntry(c, i, inum, field, c', j);
      }
    }
  }

  lemma NewEntry(c: seq<byte>, i: nat, inum: u16, field: seq<byte>, c': seq<byte>)
    requires EntryAdded(c, i, inum, field, c') && i < Entries(c')
    ensures EntryInum(c', i) == inum && EntryName(c', i) == Canon(field)
  {
    hide Canon;
    var x := EncDirent(inum, field);
    assert c'[16 * i] == x[0] && c'[16 * i + 1] == x[1];
    assert c'[16 * i + 2..16 * i + 16] == field;
  }

  lemma OtherEntry(c: seq<byte>, i: nat, inum: u16, field: seq<byte>, c': seq<byte>, j: nat)
    requires EntryAdded(c, i, inum, field, c') && j < Entries(c') && j != i
    ensures j < Entries(c) && EntryInum(c', j) == EntryInum(c, j) && EntryName(c', j) == EntryName(c, j)
  {
    hide Canon, EncDirent;
    WrittenLength(c, 16 * i, EncDirent(inum, field));
    var lo := 16 * j;
    assert lo + 16 <= 16 * i || 16 * i + 16 <= lo;
    assert c'[lo] == c[lo] && c'[lo + 1] == c[lo + 1];
    assert c'[lo + 2..lo + 16] == c[lo + 2..lo + 16];
  }

  lemma {:induction false} AddedTail(c: seq<byte>, i: nat, inum: u16, field: seq<byte>, c': seq<byte>, j: nat)
    requires EntryAdded(c, i, inum, field, c') && j > i
    ensures DirMap(c', j) == DirMap(c, j)
    decreases Entries(c) - j
  {
    hide Canon, EntryName, EntryInum, Written, EncDirent;
    AddedEntry(c, i, inum, field, c', j);
    if j < Entries(c) {
      AddedTail(c, i, inum, field, c', j + 1);
    }
  }

  /** A new name in an empty slot, or in a new one, is a map update. */
  lemma {:induction false} AddedMap(c: seq<byte>, i: nat, inum: u16, field: seq<byte>, c': seq<byte>, j: nat)
    requires EntryAdded(c, i, inum, field, c') && j <= i && Canon(field) !in DirMap(c, j)
    ensures DirMap(c', j) == DirMap(c, j)[Canon(field) := inum]
    decreases i - j
  {
    hide Canon, EntryName, EntryInum, Written, EncDirent;
    AddedEntry(c, i, inum, field, c', j);
    if j == i {
      AddedTail(c, i, inum, field, c', j + 1);
    } else {
      AddedMap(c, i, inum, field, c', j + 1);
    }
  }

  lemma AddedUnique(c: seq<byte>, i: nat, inum: u16, field: seq<byte>, c': seq<byte>)
    requires EntryAdded(c, i, inum, field, c') && Canon(field) !in DirMap(c, 0) && UniqueNames(c)
    ensures UniqueNames(c')
  {
    forall a, b | 0 <= a < b < Entries(c') && EntryInum(c', a) != 0 && EntryInum(c', b) != 0
      ensures EntryName(c', a) != EntryName(c', b)
    {
      AddedEntry(c, i, inum, field, c', a);
      AddedEntry(c, i, inum, field, c', b);
      if a != i { NamesInMap(c, 0, a); }
      if b != i { NamesInMap(c, 0, b); }
    }
  }

  // ---------------------------------------------------------------- all directories

  ghost predicate DirOk(c: seq<byte>, ino: seq<Dinode>)
  {
    |c| % 16 == 0 && UniqueNames(c) &&
    forall i {:trigger EntryInum(c, i)} :: 0 <= i < Entries(c) && EntryInum(c, i) != 0 ==> Live(ino, EntryInum(c, i))
  }

  predicate IsDir(ino: seq<Dinode>, k: int)
  {
    Live(ino, k) && ino[k].kind == T_DIR
  }

  /** Every directory is a list of entries with unique names that refer to allocated inodes; inode 1 is one. */
  ghost predicate DirsOk(disk: Disk, ino: seq<Dinode>)
  {
    IsDir(ino, ROOTINO) &&
    forall k :: IsDir(ino, k) ==> |ino[k].addrs| == 13 && ino[k].size <= 274432 && DirOk(Content(disk, ino[k]), ino)
  }

  /** The directory with inode number k as a map. */
  function DirOf(disk: Disk, ino: seq<Dinode>, k: nat): map<Name, u16>
    requires k < |ino| && |ino[k].addrs| == 13 && ino[k].size <= 274432
  {
    DirMap(Content(disk, ino[k]), 0)
  }

  /** Entries of a directory lead to allocated inodes. */
  lemma DirTargets(disk: Disk, ino: seq<Dinode>, k: nat, n: Name)
    requires DirsOk(disk, ino) && IsDir(ino, k) && n in DirOf(disk, ino, k)
    ensures Live(ino, DirOf(disk, ino, k)[n])
  {
    var j := MapFromEntries(Content(disk, ino[k]), 0, n);
  }

  /** Directories survive a step that keeps every directory's bytes and kills no inode. */
  lemma DirsKept(disk: Disk, ino: seq<Dinode>, disk': Disk, ino': seq<Dinode>)
    requires DirsOk(disk, ino) && |ino'| == |ino|
    requires forall k :: Live(ino, k) ==> Live(ino', k)
    requires forall k ::
      IsDir(ino', k) ==> IsDir(ino, k) && ino'[k] == ino[k] && Content(disk', ino[k]) == Content(disk, ino[k])
    requires IsDir(ino', ROOTINO)
    ensures DirsOk(disk', ino')
  {}
}

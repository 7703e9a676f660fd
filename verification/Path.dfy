/**
 Path names: skipelem and namex (kernel/fs/fs.c:630-659, 683-756).

 A path is the string before its NUL; a char pointer into it is an index, and the
 NUL is at index |s|.
 */
module Path {
  import opened Wrappers
  import opened Layout
  import opened DiskModel
  import opened Bio
  import opened Fs
  import opened Directory
  import opened DirOps

  const SLASH: byte := 47

  // ---------------------------------------------------------------- components of a path

  /** The pieces between slashes, empty ones included. */
  function Split(p: seq<byte>): (r: seq<seq<byte>>)
    ensures |r| >= 1
  {
    if p == [] then [[]]
    else if p[0] == SLASH then [[]] + Split(p[1..])
    else [[p[0]] + Split(p[1..])[0]] + Split(p[1..])[1..]
  }

  /** DIRSIZ bytes of a name at most. */
  function Truncated(e: seq<byte>): Name
  {
    if |e| >= 14 then e[..14] else e
  }

  function NonEmpty(pieces: seq<seq<byte>>): seq<Name>
  {
    if pieces == [] then []
    else if pieces[0] == [] then NonEmpty(pieces[1..])
    else [Truncated(pieces[0])] + NonEmpty(pieces[1..])
  }

  /** The nonempty slash-separated components, each cut to 14 bytes. */
  function Components(p: seq<byte>): seq<Name>
  {
    NonEmpty(Split(p))
  }

  lemma SlashSkipped(p: seq<byte>)
    requires p != [] && p[0] == SLASH
    ensures Components(p) == Components(p[1..])
  {
    assert Split(p)[1..] == Split(p[1..]);
  }

  /** Slashes alone have no component. */
  lemma {:induction false} OnlySlashes(p: seq<byte>)
    requires forall i :: 0 <= i < |p| ==> p[i] == 47
    ensures Components(p) == []
  {
    if p == [] {
      assert Split([])[1..] == [];
    } else {
      SlashSkipped(p);
      OnlySlashes(p[1..]);
    }
  }

  lemma {:induction false} SplitElement(e: seq<byte>, rest: seq<byte>)
    requires (forall i :: 0 <= i < |e| ==> e[i] != SLASH) && (rest == [] || rest[0] == SLASH)
    ensures Split(e + rest) == [e] + Split(rest)[1..]
  {
    if e == [] {
      assert e + rest == rest;
    } else {
      SplitElement(e[1..], rest);
      assert (e + rest)[1..] == e[1..] + rest;
      assert [e[0]] + e[1..] == e;
    }
  }

  /** A path that starts with a nonempty element, up to the next '/', has 14 bytes of it as its first component. */
  lemma ElementFirst(e: seq<byte>, rest: seq<byte>)
    requires e != [] && (forall i :: 0 <= i < |e| ==> e[i] != 47) && (rest == [] || rest[0] == 47)
    ensures Components(e + rest) == [if |e| < 14 then e else e[..14]] + Components(rest)
  {
    SplitElement(e, rest);
    var tail := Split(rest)[1..];
    assert Split(rest)[0] == [];
    assert NonEmpty(Split(rest)) == NonEmpty(tail);
    assert ([e] + tail)[1..] == tail;
  }

  lemma {:induction false} SplitSlash(p: seq<byte>)
    ensures Split(p + [SLASH]) == Split(p) + [[]]
  {
    if p == [] {
      assert p + [SLASH] == [SLASH];
      assert [SLASH][1..] == [];
    } else {
      SplitSlash(p[1..]);
      assert (p + [SLASH])[1..] == p[1..] + [SLASH];
    }
  }

  lemma {:induction false} NonEmptyLast(pieces: seq<seq<byte>>)
    ensures NonEmpty(pieces + [[]]) == NonEmpty(pieces)
  {
    if pieces == [] {
      assert (pieces + [[]])[1..] == [];
    } else {
      NonEmptyLast(pieces[1..]);
      assert (pieces + [[]])[1..] == pieces[1..] + [[]];
    }
  }

  /** A trailing slash never matters, so the parent of "/a/" is the root, as that of "/a" is. */
  lemma TrailingSlash(p: seq<byte>)
    ensures Components(p + [SLASH]) == Components(p)
  {
    SplitSlash(p);
    NonEmptyLast(Split(p));
  }

  // ---------------------------------------------------------------- skipelem

  /** fs.c:635-636, 655-656: skip a run of slashes. */
  method SkipSlashes(s: seq<byte>, i: nat) returns (j: nat)
    requires i <= |s|
    ensures i <= j <= |s| && (j < |s| ==> s[j] != 47) && forall k :: i <= k < j ==> s[k] == 47
    ensures Components(s[i..]) == Components(s[j..])
  {
    j := i;
    while j < |s| && s[j] == SLASH
      invariant i <= j <= |s| && Components(s[i..]) == Components(s[j..]) && forall k :: i <= k < j ==> s[k] == 47
    {
      SlashSkipped(s[j..]);
      assert s[j..][1..] == s[j + 1..];
      j := j + 1;
    }
  }

  /** fs.c:647-652: memmove of the element into the name buffer, with a NUL if there is room. */
  function StoreName(name: seq<byte>, e: seq<byte>): (r: seq<byte>)
    requires |name| == 14
    ensures |r| == 14
  {
    if |e| >= 14 then e[..14] else Splice(name, 0, e)[|e| := 0]
  }

  lemma StoredName(name: seq<byte>, e: seq<byte>)
    requires |name| == 14 && forall i :: 0 <= i < |e| ==> e[i] != 0
    ensures Canon(StoreName(name, e)) == if |e| < 14 then e else e[..14]
  {
    var r := StoreName(name, e);
    if |e| >= 14 {
      CanonIs(r, 14);
      assert r[..14] == r;
    } else {
      CanonIs(r, |e|);
      assert r[..|e|] == e;
    }
  }

  /**
   skipelem: none iff the rest of the path has no component; otherwise the first
   component goes to the name buffer and the path continues after it and the slashes
   that follow it.  Bytes a to b are the element: after a run of '/', up to the next one,
   and the name is its first 14 bytes, or all of it.
   */
  method Skipelem(s: seq<byte>, i: nat, name: seq<byte>) returns (r: Option<nat>, name': seq<byte>)
    requires i <= |s| && |name| == 14 && forall k :: 0 <= k < |s| ==> s[k] != 0
    ensures |name'| == 14
    ensures r.None? <==> Components(s[i..]) == []
    ensures r.None? ==> name' == name
    ensures r.Some? ==> i < r.value <= |s| && Components(s[i..]) == [Canon(name')] + Components(s[r.value..])
    ensures r.Some? ==> (r.value == |s| <==> Components(s[r.value..]) == [])
    ensures r.None? <==> forall k :: i <= k < |s| ==> s[k] == 47
    ensures r.Some? ==> exists a: nat, b: nat ::
      i <= a < b <= r.value && (forall k :: i <= k < a ==> s[k] == 47) &&
      (forall k :: a <= k < b ==> s[k] != 47) && (forall k :: b <= k < r.value ==> s[k] == 47) &&
      (r.value < |s| ==> b < r.value && s[r.value] != 47) &&
      Canon(name') <= s[a..b] && |Canon(name')| == if b - a < 14 then b - a else 14
  {
    hide Components, Canon, StoreName, Truncated;
    name' := name;
    var p := SkipSlashes(s, i);
    RestEmpty(s, p);
    if p == |s| {
      return None, name;
    }
    var start := p;
    while p < |s| && s[p] != SLASH
      invariant start <= p <= |s| && forall k :: start <= k < p ==> s[k] != SLASH
    {
      p := p + 1;
    }
    name' := StoreName(name, s[start..p]);
    ElementStored(s, start, p, name);
    ghost var e := p;
    p := SkipSlashes(s, p);
    RestEmpty(s, p);
    r := Some(p);
    assert Canon(name') <= s[start..e];
  }

  /** The element between two slashes is the first component, and what the name buffer then stands for. */
  lemma ElementStored(s: seq<byte>, start: nat, p: nat, name: seq<byte>)
    requires start < p <= |s| && |name| == 14 && (forall k :: 0 <= k < |s| ==> s[k] != 0)
    requires (forall k :: start <= k < p ==> s[k] != SLASH) && (p < |s| ==> s[p] == SLASH)
    ensures Components(s[start..]) == [Canon(StoreName(name, s[start..p]))] + Components(s[p..])
    ensures var n := Canon(StoreName(name, s[start..p]));
      n <= s[start..p] && |n| == if p - start < 14 then p - start else 14
  {
    hide Components, Canon, StoreName, Truncated;
    var e := s[start..p];
    StoredName(name, e);
    ElementFirst(e, s[p..]);
    assert e + s[p..] == s[start..];
  }

  lemma RestEmpty(s: seq<byte>, p: nat)
    requires p <= |s| && (p < |s| ==> s[p] != SLASH)
    ensures p == |s| <==> Components(s[p..]) == []
  {
    if p == |s| {
      assert s[p..] == [];
      assert Split([]) == [[]];
    } else {
      assert Split(s[p..])[0] != [];
    }
  }

  // ---------------------------------------------------------------- walking the tree

  /** Looking the components up one after the other, from inode k on. */
  ghost function Walk(disk: Disk, ino: seq<Dinode>, k: nat, comps: seq<Name>): Option<nat>
    requires DirsOk(disk, ino) && Live(ino, k)
    decreases |comps|
  {
    if comps == [] then Some(k)
    else if !IsDir(ino, k) || comps[0] !in DirOf(disk, ino, k) then None
    else
      DirTargets(disk, ino, k, comps[0]);
      Walk(disk, ino, DirOf(disk, ino, k)[comps[0]], comps[1..])
  }

  /** The directory that is to hold the last component. */
  function ParentOf(disk: Disk, ino: seq<Dinode>, k: nat, comps: seq<Name>): Option<nat>
    requires DirsOk(disk, ino) && Live(ino, k)
    decreases |comps|
  {
    if comps == [] || !IsDir(ino, k) then None
    else if |comps| == 1 then Some(k)
    else if comps[0] !in DirOf(disk, ino, k) then None
    else
      DirTargets(disk, ino, k, comps[0]);
      ParentOf(disk, ino, DirOf(disk, ino, k)[comps[0]], comps[1..])
  }

  /** The parent is where all components but the last lead, if that is a directory. */
  lemma {:induction false} ParentIsWalk(disk: Disk, ino: seq<Dinode>, k: nat, comps: seq<Name>)
    requires DirsOk(disk, ino) && Live(ino, k) && comps != []
    ensures var w := Walk(disk, ino, k, comps[..|comps| - 1]);
      ParentOf(disk, ino, k, comps) == if w.Some? && IsDir(ino, w.value) then w else None
    decreases |comps|
  {
    if |comps| > 1 && IsDir(ino, k) && comps[0] in DirOf(disk, ino, k) {
      DirTargets(disk, ino, k, comps[0]);
      ParentIsWalk(disk, ino, DirOf(disk, ino, k)[comps[0]], comps[1..]);
      assert comps[..|comps| - 1][1..] == comps[1..][..|comps[1..]| - 1];
    }
  }

  /** Looking a name up in the parent is looking the whole path up. */
  lemma {:induction false} WalkThroughParent(disk: Disk, ino: seq<Dinode>, k: nat, comps: seq<Name>)
    requires DirsOk(disk, ino) && Live(ino, k) && comps != []
    ensures var d := ParentOf(disk, ino, k, comps);
      Walk(disk, ino, k, comps) ==
        if d.Some? && IsDir(ino, d.value) && comps[|comps| - 1] in DirOf(disk, ino, d.value)
        then Some(DirOf(disk, ino, d.value)[comps[|comps| - 1]] as nat) else None
    decreases |comps|
  {
    if IsDir(ino, k) && comps[0] in DirOf(disk, ino, k) {
      DirTargets(disk, ino, k, comps[0]);
      if |comps| > 1 {
        WalkThroughParent(disk, ino, DirOf(disk, ino, k)[comps[0]], comps[1..]);
      }
    }
  }

  // ---------------------------------------------------------------- namex

  /** Where a lookup of the remaining components would lead. */
  ghost function Target(disk: Disk, ino: seq<Dinode>, parent: bool, k: nat, comps: seq<Name>): Option<nat>
    requires DirsOk(disk, ino) && Live(ino, k)
  {
    if parent then ParentOf(disk, ino, k, comps) else Walk(disk, ino, k, comps)
  }

  lemma RootIsDir(disk: Disk, ino: seq<Dinode>)
    requires DirsOk(disk, ino)
    ensures IsDir(ino, ROOTINO)
  {}

  /** The inode cache has room for every iget of a lookup that starts with a reference to inode k. */
  predicate WalkFits(disk: Disk, ino: seq<Dinode>, icache: seq<Inode>, parent: bool, k: nat, comps: seq<Name>)
    requires DirsOk(disk, ino) && Live(ino, k)
    decreases |comps|
  {
    if comps == [] || !IsDir(ino, k) || (parent && |comps| == 1) || comps[0] !in DirOf(disk, ino, k) then true
    else
      DirTargets(disk, ino, k, comps[0]);
      var next := DirOf(disk, ino, k)[comps[0]];
      CanStep(icache, k, next) && WalkFits(disk, ino, icache, parent, next, comps[1..])
  }

  lemma WalkFitsStep(disk: Disk, ino: seq<Dinode>, icache: seq<Inode>, parent: bool, k: nat, comps: seq<Name>)
    requires DirsOk(disk, ino) && Live(ino, k) && comps != [] && WalkFits(disk, ino, icache, parent, k, comps)
    ensures IsDir(ino, k) && !(parent && |comps| == 1) && comps[0] in DirOf(disk, ino, k) ==>
      var next := DirOf(disk, ino, k)[comps[0]];
      CanStep(icache, k, next) && Live(ino, next) && WalkFits(disk, ino, icache, parent, next, comps[1..])
  {
    if IsDir(ino, k) && comps[0] in DirOf(disk, ino, k) {
      DirTargets(disk, ino, k, comps[0]);
    }
  }

  /** What a lookup of the path takes of the inode cache: the root's entry, then that of each inode on the way. */
  predicate PathFits(disk: Disk, ino: seq<Dinode>, icache: seq<Inode>, path: seq<byte>, parent: bool)
    requires DirsOk(disk, ino)
  {
    RootIsDir(disk, ino);
    CanGet(icache, ROOTINO) && WalkFits(disk, ino, icache, parent, ROOTINO, Components(path))
  }

  /** One more, one more, one less: the references of a step from `a` down to `b`. */
  lemma StepRefs(refs: seq<nat>, a: nat, b: nat)
    requires a < |refs| && b < |refs|
    ensures var r1 := refs[a := refs[a] + 1];
      var r2 := r1[b := r1[b] + 1];
      r2[a] >= 1 && r2[a := r2[a] - 1] == refs[b := refs[b] + 1]
  {}

  lemma DropRef(refs: seq<nat>, a: nat)
    requires a < |refs|
    ensures refs[a := refs[a] + 1][a := refs[a]] == refs
  {}

  function LastOf(comps: seq<Name>): Name
    requires comps != []
  {
    comps[|comps| - 1]
  }

  /** A referenced inode of a quiescent, well-formed file system. */
  ghost predicate At(fs: FileSystem, ip: nat)
    reads fs, fs.bc, fs.bc.vd
  {
    fs.Valid() && DirsOk(fs.bc.disk, fs.ino) && ip < 50 && fs.icache[ip].ref > 0 && Live(fs.ino, fs.icache[ip].inum)
  }

  /** One level of the tree, as the two lookups see it. */
  lemma TargetStep(disk: Disk, ino: seq<Dinode>, parent: bool, k: nat, comps: seq<Name>)
    requires DirsOk(disk, ino) && Live(ino, k) && comps != []
    ensures !IsDir(ino, k) ==> Target(disk, ino, parent, k, comps) == None
    ensures IsDir(ino, k) && parent && |comps| == 1 ==> Target(disk, ino, parent, k, comps) == Some(k)
    ensures IsDir(ino, k) && !(parent && |comps| == 1) && comps[0] !in DirOf(disk, ino, k) ==>
      Target(disk, ino, parent, k, comps) == None
    ensures IsDir(ino, k) && !(parent && |comps| == 1) && comps[0] in DirOf(disk, ino, k) ==>
      Live(ino, DirOf(disk, ino, k)[comps[0]]) &&
      Target(disk, ino, parent, k, comps) == Target(disk, ino, parent, DirOf(disk, ino, k)[comps[0]], comps[1..])
  {
    if IsDir(ino, k) && comps[0] in DirOf(disk, ino, k) {
      DirTargets(disk, ino, k, comps[0]);
    }
  }

  lemma DirAtIsDirOf(fs: FileSystem, dp: nat)
    requires AtDir(fs, dp)
    ensures Live(fs.ino, fs.icache[dp].inum) && DirAt(fs, dp) == DirOf(fs.bc.disk, fs.ino, fs.icache[dp].inum)
  {}

  /** References besides those of the cache ic0, and what the cache then still holds of it. */
  ghost predicate Besides(fs: FileSystem, ic0: seq<Inode>, refs: seq<nat>)
    reads fs, fs.bc, fs.bc.vd
  {
    fs.Valid() && DirsOk(fs.bc.disk, fs.ino) && NamesKept(IRefs(ic0), ic0, fs.icache) && IRefs(fs.icache) == refs
  }

  /**
   In the middle of a lookup: one reference to inode ip on top of those of ic0, from where
   the remaining components lead to the goal, and room in the cache for the way there.
   */
  ghost predicate Underway(fs: FileSystem, ic0: seq<Inode>, parent: bool, goal: Option<nat>, ip: nat, comps: seq<Name>)
    reads fs, fs.bc, fs.bc.vd
  {
    At(fs, ip) && |ic0| == 50 && Besides(fs, ic0, IRefs(ic0)[ip := IRefs(ic0)[ip] + 1]) &&
    WalkFits(fs.bc.disk, fs.ino, ic0, parent, fs.icache[ip].inum, comps) &&
    goal == Target(fs.bc.disk, fs.ino, parent, fs.icache[ip].inum, comps)
  }

  /** The lookup found its goal at ip. */
  ghost predicate Arrived(fs: FileSystem, ic0: seq<Inode>, goal: Option<nat>, ip: nat)
    reads fs, fs.bc, fs.bc.vd
  {
    At(fs, ip) && |ic0| == 50 && Besides(fs, ic0, IRefs(ic0)[ip := IRefs(ic0)[ip] + 1]) &&
    goal == Some(fs.icache[ip].inum)
  }

  /**
   fs.c:694-718: one round of the loop.  Either the lookup ends at ip with its
   reference kept (nameiparent), or it fails with the reference dropped, or it goes on
   at the next inode, whose reference replaces ip's.
   */
  method NamexRound(fs: FileSystem, ip: nat, name: seq<byte>, parent: bool, last: bool,
                    ghost goal: Option<nat>, ghost comps: seq<Name>, ghost ic0: seq<Inode>)
    returns (done: bool, r: Option<nat>)
    requires Underway(fs, ic0, parent, goal, ip, comps)
    requires |name| == 14 && comps != [] && comps[0] == Canon(name) && (last <==> |comps| == 1)
    modifies fs`icache, fs.bc, fs.bc.vd
    ensures fs.bc.disk == old(fs.bc.disk) && fs.bc.Valid() && fs.bc.Refs() == old(fs.bc.Refs())
    ensures done && r.None? ==> goal == None && Besides(fs, ic0, IRefs(ic0))
    ensures done && r.Some? ==>
      parent && last && Arrived(fs, ic0, goal, r.value) && IsDir(fs.ino, fs.icache[r.value].inum)
    ensures !done ==> r.Some? && Underway(fs, ic0, parent, goal, r.value, comps[1..])
  {
    hide BufferCache.Valid, BufferCache.ValidExcept, FsInv, OnDisk, FileSystem.Valid, DirsOk, Canon, DirOf, Target,
      IcacheOk,
      Content, SameNames, NamesKept, WalkFits, CanStep;
    ghost var k, refs, ic := fs.icache[ip].inum, IRefs(ic0), fs.icache;
    TargetStep(fs.bc.disk, fs.ino, parent, k, comps);
    fs.Ilock(ip);
    NamesKeptBy(refs, ic, fs.icache);
    NamesKeptTrans(refs, ic0, ic, fs.icache);
    if fs.icache[ip].di.kind != T_DIR {
      Drop(fs, ip, ic0);
      return true, None;
    }
    AtDirIntro(fs, ip);
    if parent && last {
      return true, Some(ip);
    }
    WalkFitsStep(fs.bc.disk, fs.ino, ic0, parent, k, comps);
    r := Descend(fs, ip, name, ic0);
    done := r.None?;
  }

  /** iput of the one reference that is held besides those of ic0. */
  method Drop(fs: FileSystem, ip: nat, ghost ic0: seq<Inode>)
    requires ip < 50 && |ic0| == 50 && Besides(fs, ic0, IRefs(ic0)[ip := IRefs(ic0)[ip] + 1])
    modifies fs`icache
    ensures Besides(fs, ic0, IRefs(ic0))
  {
    hide FsInv, OnDisk, FileSystem.Valid, DirsOk, IcacheOk, SameNames, NamesKept;
    ghost var refs, ic := IRefs(ic0), fs.icache;
    DropRef(refs, ip);
    fs.Iput(ip);
    NamesKeptBy(refs, ic, fs.icache);
    NamesKeptTrans(refs, ic0, ic, fs.icache);
  }

  /** fs.c:708-717: look the name up in directory ip, whose reference is dropped either way. */
  method Descend(fs: FileSystem, ip: nat, name: seq<byte>, ghost ic0: seq<Inode>) returns (r: Option<nat>)
    requires AtDir(fs, ip) && At(fs, ip) && |name| == 14 && |ic0| == 50
    requires Besides(fs, ic0, IRefs(ic0)[ip := IRefs(ic0)[ip] + 1])
    requires Canon(name) in DirOf(fs.bc.disk, fs.ino, fs.icache[ip].inum) ==>
      CanStep(ic0, fs.icache[ip].inum, DirOf(fs.bc.disk, fs.ino, fs.icache[ip].inum)[Canon(name)])
    modifies fs`icache, fs.bc, fs.bc.vd
    ensures fs.bc.disk == old(fs.bc.disk) && fs.bc.Valid() && fs.bc.Refs() == old(fs.bc.Refs())
    ensures r.None? <==> Canon(name) !in DirOf(fs.bc.disk, fs.ino, old(fs.icache[ip].inum))
    ensures r.None? ==> Besides(fs, ic0, IRefs(ic0))
    ensures r.Some? ==> At(fs, r.value) && Besides(fs, ic0, IRefs(ic0)[r.value := IRefs(ic0)[r.value] + 1])
    ensures r.Some? ==>
      fs.icache[r.value].inum == DirOf(fs.bc.disk, fs.ino, old(fs.icache[ip].inum))[Canon(name)]
  {
    hide BufferCache.Valid, BufferCache.ValidExcept, FsInv, OnDisk, FileSystem.Valid, DirsOk, Canon, DirOf, DirAt,
      IcacheOk, Content,
      SameNames, NamesKept, CanStep, CanGet;
    ghost var refs, ic := IRefs(ic0), fs.icache;
    DirAtIsDirOf(fs, ip);
    if Canon(name) in DirAt(fs, ip) {
      StepForetold(ic0, ic, fs.ino, ip, DirAt(fs, ip)[Canon(name)]);
      DirTargets(fs.bc.disk, fs.ino, fs.icache[ip].inum, Canon(name));
    }
    var off;
    r, off := Dirlookup(fs, ip, name);
    DirAtIsDirOf(fs, ip);
    NextNamed(ic, fs.icache, ip);
    NamesKeptBy(refs, ic, fs.icache);
    NamesKeptTrans(refs, ic0, ic, fs.icache);
    if r.None? {
      Drop(fs, ip, ic0);
    } else {
      ghost var ic2 := fs.icache;
      StepRefs(refs, ip, r.value);
      fs.Iput(ip);
      NamesKeptBy(refs, ic2, fs.icache);
      NamesKeptTrans(refs, ic0, ic2, fs.icache);
      NextNamed(ic2, fs.icache, r.value);
    }
  }

  /** fs.c:687-691: the lookup starts with a reference to the root. */
  method NamexStart(fs: FileSystem, path: seq<byte>, parent: bool) returns (ip: nat)
    requires fs.Valid() && DirsOk(fs.bc.disk, fs.ino) && PathFits(fs.bc.disk, fs.ino, fs.icache, path, parent)
    modifies fs`icache
    ensures Live(fs.ino, ROOTINO)
    ensures Underway(fs, old(fs.icache), parent, Target(fs.bc.disk, fs.ino, parent, ROOTINO, Components(path)),
                     ip, Components(path))
  {
    hide FsInv, OnDisk, FileSystem.Valid, DirsOk, Components, Target, IcacheOk, CanGet, WalkFits;
    RootIsDir(fs.bc.disk, fs.ino);
    ghost var ic0 := fs.icache;
    ip := fs.Iget(ROOTDEV, ROOTINO);
    NamesKeptBy(IRefs(ic0), ic0, fs.icache);
  }

  /** fs.c:721-727: all components are used up; nameiparent fails then. */
  method NamexEnd(fs: FileSystem, ip: nat, parent: bool, ghost goal: Option<nat>, ghost ic0: seq<Inode>)
    returns (r: Option<nat>)
    requires Underway(fs, ic0, parent, goal, ip, [])
    modifies fs`icache
    ensures r == if parent then None else Some(ip)
    ensures if parent then goal == None && Besides(fs, ic0, IRefs(ic0)) else Arrived(fs, ic0, goal, ip)
  {
    hide FsInv, OnDisk, FileSystem.Valid, DirsOk, Target, IcacheOk, WalkFits;
    TargetEnd(fs.bc.disk, fs.ino, parent, fs.icache[ip].inum);
    if parent {
      Drop(fs, ip, ic0);
      return None;
    }
    return Some(ip);
  }

  /**
   namex: the inode the components lead to (or, for nameiparent, the directory that is
   to hold the last one and that component's name), with exactly one reference more;
   on failure no reference count differs.
   */
  method Namex(fs: FileSystem, path: seq<byte>, parent: bool, buf: seq<byte>) returns (r: Option<nat>, name: seq<byte>)
    requires fs.Valid() && DirsOk(fs.bc.disk, fs.ino) && PathFits(fs.bc.disk, fs.ino, fs.icache, path, parent)
    requires |buf| == 14 && forall k :: 0 <= k < |path| ==> path[k] != 0
    modifies fs`icache, fs.bc, fs.bc.vd
    ensures fs.Valid() && fs.bc.disk == old(fs.bc.disk) && fs.bc.Refs() == old(fs.bc.Refs())
    ensures DirsOk(fs.bc.disk, fs.ino) && |name| == 14
    ensures var t := Target(fs.bc.disk, fs.ino, parent, ROOTINO, Components(path));
      (r.None? <==> t.None?) && (r.Some? ==> At(fs, r.value) && fs.icache[r.value].inum == t.value)
    ensures r.None? ==> IRefs(fs.icache) == IRefs(old(fs.icache))
    ensures NamesKept(IRefs(old(fs.icache)), old(fs.icache), fs.icache)
    ensures r.Some? ==> IRefs(fs.icache) == IRefs(old(fs.icache))[r.value := IRefs(old(fs.icache))[r.value] + 1]
    ensures r.Some? && parent ==> Components(path) != [] && Canon(name) == LastOf(Components(path))
    ensures r.Some? && parent ==> IsDir(fs.ino, fs.icache[r.value].inum)
  {
    hide BufferCache.Valid, BufferCache.ValidExcept, FsInv, OnDisk, FileSystem.Valid, DirsOk, Components, Canon,
      Target, IcacheOk, PathFits, NamesKept, Underway;
    ghost var ic0 := fs.icache;
    RootIsDir(fs.bc.disk, fs.ino);
    ghost var goal := Target(fs.bc.disk, fs.ino, parent, ROOTINO, Components(path));
    var ip := NamexStart(fs, path, parent);
    name := buf;
    var i := 0;
    assert path[0..] == path;
    var p, nm := Skipelem(path, i, name);
    name := nm;
    while p.Some?
      invariant |name| == 14 && i <= |path| && Underway(fs, ic0, parent, goal, ip, Components(path[i..]))
      invariant fs.bc.disk == old(fs.bc.disk) && fs.bc.Valid() && fs.bc.Refs() == old(fs.bc.Refs())
      invariant p.None? <==> Components(path[i..]) == []
      invariant p.Some? ==>
        i < p.value <= |path| && Components(path[i..]) == [Canon(name)] + Components(path[p.value..])
      invariant p.Some? ==> (p.value == |path| <==> Components(path[p.value..]) == [])
      invariant Components(path[i..]) != [] ==>
        Components(path) != [] && LastOf(Components(path)) == LastOf(Components(path[i..]))
      decreases |path| - i
    {
      var done, next := NamexRound(fs, ip, name, parent, p.value == |path|, goal, Components(path[i..]), ic0);
      if done {
        return next, name;
      }
      ip, i := next.value, p.value;
      p, nm := Skipelem(path, i, name);
      name := nm;
    }
    r := NamexEnd(fs, ip, parent, goal, ic0);
  }

  lemma TargetEnd(disk: Disk, ino: seq<Dinode>, parent: bool, k: nat)
    requires DirsOk(disk, ino) && Live(ino, k)
    ensures Target(disk, ino, parent, k, []) == if parent then None else Some(k)
  {}

  /** namei: the path's inode. */
  method Namei(fs: FileSystem, path: seq<byte>) returns (r: Option<nat>)
    requires fs.Valid() && DirsOk(fs.bc.disk, fs.ino) && PathFits(fs.bc.disk, fs.ino, fs.icache, path, false)
    requires forall k :: 0 <= k < |path| ==> path[k] != 0
    modifies fs`icache, fs.bc, fs.bc.vd
    ensures fs.Valid() && fs.bc.disk == old(fs.bc.disk) && fs.bc.Refs() == old(fs.bc.Refs())
    ensures DirsOk(fs.bc.disk, fs.ino)
    ensures var w := Walk(fs.bc.disk, fs.ino, ROOTINO, Components(path));
      (r.None? <==> w.None?) && (r.Some? ==> At(fs, r.value) && fs.icache[r.value].inum == w.value)
    ensures r.None? ==> IRefs(fs.icache) == IRefs(old(fs.icache))
    ensures NamesKept(IRefs(old(fs.icache)), old(fs.icache), fs.icache)
    ensures r.Some? ==> IRefs(fs.icache) == IRefs(old(fs.icache))[r.value := IRefs(old(fs.icache))[r.value] + 1]
  {
    hide BufferCache.Valid, BufferCache.ValidExcept, FsInv, OnDisk, FileSystem.Valid, DirsOk, Components, Canon,
      DirOf, PathFits, Walk, ParentOf;
    var name;
    r, name := Namex(fs, path, false, seq(14, i => 0));
  }
}

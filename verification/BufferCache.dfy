/**
 The LRU buffer cache in front of the block driver (kernel/fs/bio.c).

 The pointers of the circular list are indices into the table of buffers; index
 HEAD is the sentinel bcache.head.
 */
module Bio {
  import opened Layout
  import opened Virtio

  const HEAD: nat := 30

  /** struct buf */
  datatype Buf = Buf(valid: bool, dev: nat, blockno: nat, refcnt: nat, prev: nat, next: nat, data: Block)

  // ---------------------------------------------------------------- the ring

  /** The i-th node met on the ring when it is walked forward from the sentinel. */
  function Node(order: seq<nat>, i: int): nat
  {
    if 1 <= i <= |order| then order[i - 1] else HEAD
  }

  /** prev and next are mutually inverse along one cycle: the sentinel, then `order`. */
  ghost predicate Ring(bufs: seq<Buf>, order: seq<nat>)
  {
    |bufs| == 31 &&
    (forall i :: 0 <= i < |order| ==> order[i] < HEAD) &&
    (forall i, j :: 0 <= i < j < |order| ==> order[i] != order[j]) &&
    (forall i, j {:trigger Node(order, i), Node(order, j)} :: 0 <= i <= |order| && j == i + 1 ==>
       bufs[Node(order, i)].next == Node(order, j) && bufs[Node(order, j)].prev == Node(order, i))
  }

  /** A store to bufs[i].next. */
  function SetNext(bufs: seq<Buf>, i: nat, x: nat): (r: seq<Buf>)
    requires i < |bufs|
    ensures |r| == |bufs|
    ensures forall j :: 0 <= j < |r| ==> r[j] == if j == i then bufs[j].(next := x) else bufs[j]
  {
    bufs[i := bufs[i].(next := x)]
  }

  /** A store to bufs[i].prev. */
  function SetPrev(bufs: seq<Buf>, i: nat, x: nat): (r: seq<Buf>)
    requires i < |bufs|
    ensures |r| == |bufs|
    ensures forall j :: 0 <= j < |r| ==> r[j] == if j == i then bufs[j].(prev := x) else bufs[j]
  {
    bufs[i := bufs[i].(prev := x)]
  }

  /** A store to bufs[i].refcnt. */
  function SetRef(bufs: seq<Buf>, i: nat, n: nat): (r: seq<Buf>)
    requires i < |bufs|
    ensures |r| == |bufs|
    ensures forall j :: 0 <= j < |r| ==> r[j] == if j == i then bufs[j].(refcnt := n) else bufs[j]
  {
    bufs[i := bufs[i].(refcnt := n)]
  }

  /** bio.c:200-201 */
  function Unlink(bufs: seq<Buf>, b: nat): (r: seq<Buf>)
    requires |bufs| == 31 && b < 31 && bufs[b].next < 31 && bufs[b].prev < 31 && bufs[b].next != b
    ensures |r| == 31 && forall j :: 0 <= j < 31 ==> r[j] == bufs[j].(prev := r[j].prev, next := r[j].next)
  {
    var b1 := SetPrev(bufs, bufs[b].next, bufs[b].prev);
    SetNext(b1, b1[b].prev, b1[b].next)
  }

  /** bio.c:205-208 */
  function LinkFirst(bufs: seq<Buf>, b: nat): (r: seq<Buf>)
    requires |bufs| == 31 && b < HEAD && bufs[HEAD].next < 31
    ensures |r| == 31 && forall j :: 0 <= j < 31 ==> r[j] == bufs[j].(prev := r[j].prev, next := r[j].next)
  {
    var b1 := SetPrev(SetNext(bufs, b, bufs[HEAD].next), b, HEAD);
    var b2 := SetPrev(b1, b1[HEAD].next, b);
    SetNext(b2, HEAD, b)
  }

  function RemoveAt(order: seq<nat>, p: nat): (r: seq<nat>)
    requires p < |order|
    ensures |r| == |order| - 1
    ensures forall x :: x in r ==> x in order
  {
    order[..p] + order[p + 1..]
  }

  lemma RemovedNode(order: seq<nat>, p: nat, i: int)
    requires p < |order|
    ensures Node(RemoveAt(order, p), i) ==
      if i <= p then Node(order, i) else if i < |order| then Node(order, i + 1) else HEAD
  {}

  /** Taking a buffer out of the list leaves a ring through all the others. */
  lemma UnlinkRing(bufs: seq<Buf>, order: seq<nat>, p: nat)
    requires Ring(bufs, order) && p < |order|
    ensures bufs[order[p]].next == Node(order, p + 2) && bufs[order[p]].prev == Node(order, p)
    ensures bufs[order[p]].next < 31 && bufs[order[p]].prev < 31 && bufs[order[p]].next != order[p]
    ensures Ring(Unlink(bufs, order[p]), RemoveAt(order, p))
    ensures order[p] !in RemoveAt(order, p)
  {
    var b := order[p];
    var pr, nx := Node(order, p), Node(order, p + 2);
    assert Node(order, p + 1) == b;
    var r, o := Unlink(bufs, b), RemoveAt(order, p);
    forall i, j | 0 <= i <= |o| && j == i + 1
      ensures r[Node(o, i)].next == Node(o, j) && r[Node(o, j)].prev == Node(o, i)
    {
      RemovedNode(order, p, i);
      RemovedNode(order, p, j);
      var i', j' := if i <= p then i else i + 1, if j <= p then j else j + 1;
      assert Node(o, i) == Node(order, i') && Node(o, j) == Node(order, j');
      if i != p {
        assert j' == i' + 1;
        assert Node(order, i') != pr && Node(order, j') != nx;
      }
    }
  }

  /** Inserting an unlinked buffer after the sentinel puts it first on the ring. */
  lemma LinkFirstRing(bufs: seq<Buf>, order: seq<nat>, b: nat)
    requires Ring(bufs, order) && b < HEAD && b !in order
    ensures bufs[HEAD].next == Node(order, 1)
    ensures Ring(LinkFirst(bufs, b), [b] + order)
  {
    var first := Node(order, 1);
    assert Node(order, 0) == HEAD;
    var r, o := LinkFirst(bufs, b), [b] + order;
    forall i, j | 0 <= i <= |o| && j == i + 1
      ensures r[Node(o, i)].next == Node(o, j) && r[Node(o, j)].prev == Node(o, i)
    {
      if i >= 1 {
        assert Node(o, j) == Node(order, i);
      }
      if i >= 2 {
        assert Node(o, i) == Node(order, i - 1);
        assert Node(order, i) != first;
      }
    }
  }

  // ---------------------------------------------------------------- the cache

  /** The links and keys of `a` and `b` agree: only reference counts, data or valid bits may differ. */
  ghost predicate SameLinks(a: seq<Buf>, b: seq<Buf>)
  {
    |a| == |b| && forall i :: 0 <= i < |a| ==> a[i].prev == b[i].prev && a[i].next == b[i].next
  }

  lemma SameLinksRing(a: seq<Buf>, b: seq<Buf>, order: seq<nat>)
    requires Ring(a, order) && SameLinks(a, b)
    ensures Ring(b, order)
  {}

  /** At most one buffer carries each key (device 0 is the key of a never used buffer). */
  ghost predicate UniqueKeys(bufs: seq<Buf>)
    requires |bufs| == 31
  {
    forall i, j :: 0 <= i < j < HEAD && bufs[i].dev != 0 && bufs[j].dev == bufs[i].dev ==>
      bufs[i].blockno != bufs[j].blockno
  }

  /** Every valid buffer of the attached device equals its disk block, `dirty` excepted. */
  ghost predicate Transparent(bufs: seq<Buf>, dev: nat, disk: seq<Block>, dirty: int)
    requires |bufs| == 31
  {
    forall i :: 0 <= i < HEAD ==>
      (bufs[i].dev == 0 ==> !bufs[i].valid && bufs[i].refcnt == 0) &&
      (bufs[i].dev != 0 ==> bufs[i].dev == dev && bufs[i].blockno < |disk|) &&
      (bufs[i].refcnt > 0 ==> bufs[i].valid) &&
      (bufs[i].valid && i != dirty ==> bufs[i].data == disk[bufs[i].blockno])
  }

  /** `order` is most recent first: stamps strictly decrease along it, and all buffers are on it. */
  ghost predicate LruOrder(order: seq<nat>, stamp: seq<nat>, clock: nat)
  {
    |stamp| == 30 &&
    (forall b :: 0 <= b < HEAD ==> b in order) &&
    (forall i :: 0 <= i < |order| ==> order[i] < HEAD && stamp[order[i]] < clock) &&
    (forall i, j :: 0 <= i < j < |order| ==> stamp[order[i]] > stamp[order[j]])
  }

  /** The reference counts of the buffers. */
  ghost function RefsOf(bufs: seq<Buf>): (r: seq<nat>)
    requires |bufs| == 31
    ensures |r| == 30 && forall i :: 0 <= i < 30 ==> r[i] == bufs[i].refcnt
  {
    seq(30, i requires 0 <= i < 30 => bufs[i].refcnt)
  }

  /** `b` is `a` up to links and reference counts, none of which grew. */
  ghost predicate SameData(a: seq<Buf>, b: seq<Buf>)
  {
    |a| == |b| &&
    forall i :: 0 <= i < |a| ==>
      a[i].(prev := 0, next := 0, refcnt := 0) == b[i].(prev := 0, next := 0, refcnt := 0) &&
      b[i].refcnt <= a[i].refcnt
  }

  lemma SameDataKeeps(a: seq<Buf>, b: seq<Buf>, dev: nat, disk: seq<Block>)
    requires |a| == 31 && SameData(a, b) && UniqueKeys(a) && Transparent(a, dev, disk, -1)
    ensures UniqueKeys(b) && Transparent(b, dev, disk, -1)
  {}

  /** Every valid buffer equals the disk block of its number, whatever device it names. */
  ghost predicate Current(bufs: seq<Buf>, disk: seq<Block>)
    requires |bufs| == 31
  {
    forall i :: 0 <= i < HEAD && bufs[i].valid ==> bufs[i].blockno < |disk| && bufs[i].data == disk[bufs[i].blockno]
  }

  /**
   The driver ignores the device number, so writing buffer b keeps the cache transparent
   exactly when no other buffer holds the same block number with other data.
   */
  lemma WriteStaysCurrent(bufs: seq<Buf>, disk: seq<Block>, b: nat, data: Block)
    requires |bufs| == 31 && Current(bufs, disk) && b < HEAD && bufs[b].valid
    ensures Current(bufs[b := bufs[b].(data := data)], disk[bufs[b].blockno := data]) <==>
      forall j :: 0 <= j < HEAD && j != b && bufs[j].valid && bufs[j].blockno == bufs[b].blockno ==>
        bufs[j].data == data
  {
    var bufs', disk' := bufs[b := bufs[b].(data := data)], disk[bufs[b].blockno := data];
    if Current(bufs', disk') {
      forall j | 0 <= j < HEAD && j != b && bufs[j].valid && bufs[j].blockno == bufs[b].blockno
        ensures bufs[j].data == data
      {
        assert bufs'[j] == bufs[j];
      }
    }
  }

  /** With one device and unique keys there never is such a buffer. */
  lemma OneDeviceStaysCurrent(bufs: seq<Buf>, disk: seq<Block>, dev: nat, b: nat, data: Block)
    requires |bufs| == 31 && dev != 0 && UniqueKeys(bufs) && Transparent(bufs, dev, disk, -1) && b < HEAD
    requires bufs[b].valid
    ensures Current(bufs, disk) && Current(bufs[b := bufs[b].(data := data)], disk[bufs[b].blockno := data])
  {
    WriteStaysCurrent(bufs, disk, b, data);
  }

  /** With unique keys only a buffer of another device can be left stale, and is whenever its data differs. */
  lemma StaleIffOtherDevice(bufs: seq<Buf>, disk: seq<Block>, b: nat, data: Block)
    requires |bufs| == 31 && Current(bufs, disk) && UniqueKeys(bufs) && b < HEAD && bufs[b].valid && bufs[b].dev != 0
    ensures !Current(bufs[b := bufs[b].(data := data)], disk[bufs[b].blockno := data]) <==>
      exists j :: 0 <= j < HEAD && bufs[j].valid && bufs[j].dev != bufs[b].dev &&
                  bufs[j].blockno == bufs[b].blockno && bufs[j].data != data
  {
    WriteStaysCurrent(bufs, disk, b, data);
  }

  predicate Spare(refs: seq<nat>)
  {
    exists i :: 0 <= i < |refs| && refs[i] == 0
  }

  /** A cache with two spare entries still has one after any single entry is taken. */
  predicate Spare2(refs: seq<nat>)
  {
    exists i, j :: 0 <= i < j < |refs| && refs[i] == 0 && refs[j] == 0
  }

  lemma SpareAfterOne(refs: seq<nat>, b: nat, n: nat)
    requires Spare2(refs) && b < |refs|
    ensures Spare(refs[b := n]) && Spare(refs)
  {
    var i, j :| 0 <= i < j < |refs| && refs[i] == 0 && refs[j] == 0;
    var r := refs[b := n];
    assert r[i] == 0 || r[j] == 0;
  }

  lemma Position(order: seq<nat>, stamp: seq<nat>, clock: nat, b: nat) returns (p: nat)
    requires LruOrder(order, stamp, clock) && b < HEAD
    ensures p < |order| && order[p] == b && |stamp| == 30
  {
    assert b in order;
    p :| 0 <= p < |order| && order[p] == b;
  }

  lemma InitialLru()
    ensures LruOrder(seq(30, i => 29 - i), seq(30, i => i), 30)
  {
    var order := seq(30, i => 29 - i);
    forall b | 0 <= b < HEAD
      ensures b in order
    {
      assert order[29 - b] == b;
    }
  }

  /** bio.c:200-208: the released buffer goes to the front; nothing but links changes. */
  function Release(bufs: seq<Buf>, b: nat): (r: seq<Buf>)
    requires |bufs| == 31 && b < HEAD && bufs[b].next < 31 && bufs[b].prev < 31 && bufs[b].next != b
    requires Unlink(bufs, b)[HEAD].next < 31
    ensures |r| == 31
    ensures forall j :: 0 <= j < 31 ==> r[j] == bufs[j].(prev := r[j].prev, next := r[j].next)
  {
    hide Unlink, LinkFirst;
    LinkFirst(Unlink(bufs, b), b)
  }

  lemma ReleaseRing(bufs: seq<Buf>, order: seq<nat>, p: nat)
    requires Ring(bufs, order) && p < |order|
    ensures bufs[order[p]].next < 31 && bufs[order[p]].prev < 31 && bufs[order[p]].next != order[p]
    ensures Unlink(bufs, order[p])[HEAD].next < 31
    ensures Ring(Release(bufs, order[p]), [order[p]] + RemoveAt(order, p))
  {
    UnlinkRing(bufs, order, p);
    LinkFirstRing(Unlink(bufs, order[p]), RemoveAt(order, p), order[p]);
  }

  lemma MoveToFrontLru(order: seq<nat>, stamp: seq<nat>, clock: nat, p: nat)
    requires LruOrder(order, stamp, clock) && p < |order|
    ensures LruOrder([order[p]] + RemoveAt(order, p), stamp[order[p] := clock], clock + 1)
  {
    var b := order[p];
    var o, s := [b] + RemoveAt(order, p), stamp[b := clock];
    forall x | 0 <= x < HEAD
      ensures x in o
    {
      var k := Position(order, stamp, clock, x);
      assert o[if k == p then 0 else if k < p then k + 1 else k] == x;
    }
    forall i | 1 <= i < |o|
      ensures o[i] == order[if i <= p then i - 1 else i] && o[i] != b && s[o[i]] == stamp[o[i]]
    {}
    forall i, j | 0 <= i < j < |o|
      ensures s[o[i]] > s[o[j]]
    {
      assert o[j] == order[if j <= p then j - 1 else j];
    }
  }

  class BufferCache {
    const vd: VirtioDisk
    const dev: nat
    var bufs: seq<Buf>
    ghost var order: seq<nat>
    ghost var stamp: seq<nat>
    ghost var clock: nat
    ghost var disk: seq<Block>

    ghost predicate ValidExcept(dirty: int)
      reads this, vd
      ensures ValidExcept(dirty) ==> |bufs| == 31
    {
      Ring(bufs, order) && LruOrder(order, stamp, clock) && UniqueKeys(bufs) &&
      dev != 0 && Transparent(bufs, dev, disk, dirty) &&
      vd.Idle() && |vd.busy| == HEAD && vd.Disk() == disk
    }

    ghost predicate Valid()
      reads this, vd
      ensures Valid() ==> |bufs| == 31
    {
      ValidExcept(-1)
    }

    /** A buffer in use holds exactly what is on disk. */
    lemma HeldIsDisk(b: nat)
      requires Valid() && b < HEAD && bufs[b].refcnt > 0
      ensures bufs[b].valid && bufs[b].blockno < |disk| && bufs[b].data == disk[bufs[b].blockno]
    {}

    /** The device holds as many blocks as `disk`. */
    lemma DeviceBlocks()
      requires Valid()
      ensures |disk| == |vd.sectors| / 2
    {}

    lemma DeviceDisk()
      requires Valid()
      ensures disk == vd.Disk()
    {}

    ghost function Refs(): (r: seq<nat>)
      requires |bufs| == 31
      reads this
      ensures r == RefsOf(bufs)
    {
      RefsOf(bufs)
    }

    /** No buffer that was in use and still is has changed its block. */
    twostate predicate HeldKept()
      requires |old(bufs)| == 31 && |bufs| == 31
      reads this
    {
      forall j :: 0 <= j < HEAD && old(bufs[j].refcnt) > 0 && bufs[j].refcnt > 0 ==>
        bufs[j].blockno == old(bufs[j].blockno)
    }

    constructor (vd: VirtioDisk, dev: nat)
      requires vd.Idle() && |vd.busy| == HEAD && dev != 0
      ensures this.vd == vd && this.dev == dev && Valid()
      ensures disk == vd.Disk()
      ensures order == seq(30, i => 29 - i)
      ensures Refs() == seq(30, i => 0)
    {
      this.vd := vd;
      this.dev := dev;
      bufs := seq(31, i => Buf(false, 0, 0, 0, HEAD, HEAD, ZeroBlock()));
      order, stamp, clock := [], seq(30, i => i), 30;
      disk := vd.Disk();
      new;
      Binit();
      InitialLru();
    }

    /**
     binit: head insertion of buf[0], buf[1], ..., so the ring starts as
     buf[NBUF-1], ..., buf[0].
     */
    method Binit()
      requires |bufs| == 31 && forall i :: 0 <= i < 31 ==> !bufs[i].valid && bufs[i].refcnt == 0 && bufs[i].dev == 0
      modifies this`bufs, this`order
      ensures Ring(bufs, order) && order == seq(30, i => 29 - i)
      ensures forall i :: 0 <= i < HEAD ==> !bufs[i].valid && bufs[i].refcnt == 0 && bufs[i].dev == 0
    {
      bufs := bufs[HEAD := bufs[HEAD].(prev := HEAD, next := HEAD)];
      order := [];
      assert Ring(bufs, []);
      for b := 0 to HEAD
        invariant Ring(bufs, order) && |order| == b
        invariant forall i :: 0 <= i < b ==> order[i] == b - 1 - i
        invariant forall i :: 0 <= i < HEAD ==> !bufs[i].valid && bufs[i].refcnt == 0 && bufs[i].dev == 0
      {
        LinkFirstRing(bufs, order, b);
        bufs := LinkFirst(bufs, b);
        order := [b] + order;
      }
    }

    /** bget, step 1 (bio.c:110-115): the buffer that carries the key, or the sentinel. */
    method FindCached(d: nat, blockno: nat) returns (b: nat)
      requires Ring(bufs, order) && LruOrder(order, stamp, clock)
      ensures b <= HEAD
      ensures b < HEAD ==> bufs[b].dev == d && bufs[b].blockno == blockno
      ensures b == HEAD ==> forall j :: 0 <= j < HEAD ==> !(bufs[j].dev == d && bufs[j].blockno == blockno)
    {
      ghost var i := 1;
      assert Node(order, 0) == HEAD;
      b := bufs[HEAD].next;
      while b != HEAD && !(bufs[b].dev == d && bufs[b].blockno == blockno)
        invariant 1 <= i <= |order| + 1 && b == Node(order, i)
        invariant forall k :: 0 <= k < i - 1 ==> !(bufs[order[k]].dev == d && bufs[order[k]].blockno == blockno)
        decreases |order| + 1 - i
      {
        b := bufs[b].next;
        i := i + 1;
      }
      forall j | 0 <= j < HEAD && b == HEAD
        ensures !(bufs[j].dev == d && bufs[j].blockno == blockno)
      {
        assert j in order;
      }
    }

    /** bget, step 2 (bio.c:119-120): the least recently released buffer nobody uses. */
    method FindLru() returns (b: nat)
      requires Ring(bufs, order) && LruOrder(order, stamp, clock) && Spare(Refs())
      ensures b < HEAD && bufs[b].refcnt == 0
      ensures forall j :: 0 <= j < HEAD && bufs[j].refcnt == 0 ==> stamp[b] <= stamp[j]
    {
      ghost var i := |order|;
      assert Node(order, |order| + 1) == HEAD;
      b := bufs[HEAD].prev;
      while b != HEAD && bufs[b].refcnt != 0
        invariant 0 <= i <= |order| && b == Node(order, i)
        invariant forall k :: i <= k < |order| ==> bufs[order[k]].refcnt > 0
        decreases i
      {
        b := bufs[b].prev;
        i := i - 1;
      }
      forall j | 0 <= j < HEAD && bufs[j].refcnt == 0
        ensures b != HEAD && stamp[b] <= stamp[j]
      {
        assert j in order;
        var k :| 0 <= k < |order| && order[k] == j;
      }
      ghost var s :| 0 <= s < HEAD && Refs()[s] == 0;
      assert bufs[s].refcnt == 0;
    }

    /**
     bget: the buffer that caches the block, or else the least recently released
     buffer that nobody uses.
     */
    method Bget(d: nat, blockno: nat) returns (b: nat)
      requires Ring(bufs, order) && LruOrder(order, stamp, clock) && UniqueKeys(bufs) && d != 0 && Spare(Refs())
      modifies this`bufs
      ensures |bufs| == 31 && b < HEAD && bufs[b].dev == d && bufs[b].blockno == blockno
      ensures Ring(bufs, order) && UniqueKeys(bufs)
      ensures forall j :: 0 <= j < HEAD && j != b ==> bufs[j] == old(bufs[j])
      ensures Refs() == old(Refs())[b := old(Refs())[b] + 1]
      ensures old(bufs[b].dev) == d && old(bufs[b].blockno) == blockno ==>
        bufs[b].valid == old(bufs[b].valid) && bufs[b].data == old(bufs[b].data)
      ensures !(old(bufs[b].dev) == d && old(bufs[b].blockno) == blockno) ==>
        !bufs[b].valid && old(bufs[b].refcnt) == 0 &&
        (forall j :: 0 <= j < HEAD ==> !(old(bufs[j].dev) == d && old(bufs[j].blockno) == blockno)) &&
        (forall j :: 0 <= j < HEAD && old(bufs[j].refcnt) == 0 ==> stamp[b] <= stamp[j])
    {
      b := FindCached(d, blockno);
      if b != HEAD {
        bufs := SetRef(bufs, b, bufs[b].refcnt + 1);
      } else {
        b := FindLru();
        bufs := bufs[b := bufs[b].(dev := d, blockno := blockno, valid := false, refcnt := 1)];
      }
      SameLinksRing(old(bufs), bufs, order);
    }

    /** bread: a held buffer whose data is the disk block. */
    method Bread(d: nat, blockno: nat) returns (b: nat)
      requires Valid() && d == dev && blockno < |disk| && Spare(Refs())
      modifies this, vd
      ensures Valid() && disk == old(disk)
      ensures b < HEAD && bufs[b].blockno == blockno && bufs[b].data == disk[blockno]
      ensures Refs() == old(Refs())[b := old(Refs())[b] + 1]
      ensures HeldKept() && order == old(order) && stamp == old(stamp) && clock == old(clock)
    {
      b := Bget(d, blockno);
      if !bufs[b].valid {
        FillKeeps(old(bufs), bufs, b, d, blockno);
        Fill(b);
      } else {
        HitKeeps(old(bufs), bufs, b, d, blockno);
      }
    }

    /**
     After bget took buffer b for block blockno: the other buffers, and b itself once it is
     filled, are as they should be.
     */
    ghost predicate Taken(was: seq<Buf>, now: seq<Buf>, b: nat, d: nat, blockno: nat)
    {
      |was| == 31 && |now| == 31 && b < HEAD && d != 0 && now[b].dev == d && now[b].blockno == blockno &&
      forall j :: 0 <= j < HEAD && j != b ==> now[j] == was[j]
    }

    /** bio.c:154-158: read the block into the buffer that carries its key. */
    method Fill(b: nat)
      requires Ring(bufs, order) && LruOrder(order, stamp, clock) && UniqueKeys(bufs) && dev != 0
      requires vd.Idle() && |vd.busy| == HEAD && vd.Disk() == disk
      requires |bufs| == 31 && b < HEAD && bufs[b].blockno < |disk|
      requires forall data: Block :: Transparent(bufs[b := bufs[b].(data := data, valid := true)], dev, disk, b)
      modifies this`bufs, vd
      ensures Valid() && |bufs| == |old(bufs)|
      ensures bufs == old(bufs)[b := old(bufs[b]).(data := disk[old(bufs[b].blockno)], valid := true)]
    {
      hide Ring, LruOrder;
      var latency: nat := *;
      var data := vd.Rw(b, bufs[b].blockno, bufs[b].data, false, latency);
      bufs := bufs[b := bufs[b].(data := data, valid := true)];
      SameLinksRing(old(bufs), bufs, order);
    }

    lemma FillKeeps(was: seq<Buf>, now: seq<Buf>, b: nat, d: nat, blockno: nat)
      requires Taken(was, now, b, d, blockno) && d == dev && blockno < |disk| && Transparent(was, dev, disk, -1)
      ensures forall data: Block :: Transparent(now[b := now[b].(data := data, valid := true)], dev, disk, b)
    {}

    lemma HitKeeps(was: seq<Buf>, now: seq<Buf>, b: nat, d: nat, blockno: nat)
      requires Taken(was, now, b, d, blockno) && d == dev && blockno < |disk| && Transparent(was, dev, disk, -1)
      requires now[b].valid && now[b].data == was[b].data && was[b].valid && was[b].blockno == blockno
      ensures Transparent(now, dev, disk, -1) && now[b].data == disk[blockno]
    {}

    /** A store through bp->data while the buffer is held. */
    method Store(b: nat, data: Block)
      requires Valid() && b < HEAD && bufs[b].refcnt > 0
      modifies this`bufs
      ensures ValidExcept(b) && Refs() == old(Refs()) && bufs[b].data == data && bufs[b].valid
      ensures bufs[b].blockno == old(bufs[b].blockno) && HeldKept()
    {
      bufs := bufs[b := bufs[b].(data := data)];
      SameLinksRing(old(bufs), bufs, order);
    }

    /** bwrite: the disk block takes the buffer's data. */
    method Bwrite(b: nat)
      requires b < HEAD && ValidExcept(b) && bufs[b].refcnt > 0
      modifies this`disk, vd
      ensures Valid() && disk == old(disk)[bufs[b].blockno := bufs[b].data]
    {
      var latency: nat := *;
      var data := vd.Rw(b, bufs[b].blockno, bufs[b].data, true, latency);
      disk := disk[bufs[b].blockno := bufs[b].data];
    }

    /** brelse: drop one reference; the last one moves the buffer to the front of the ring. */
    method Brelse(b: nat)
      requires Valid() && b < HEAD && bufs[b].refcnt > 0
      modifies this`bufs, this`order, this`stamp, this`clock
      ensures Valid() && Refs() == old(Refs())[b := old(Refs())[b] - 1]
      ensures HeldKept()
      ensures old(bufs[b].refcnt) == 1 ==>
        |order| > 0 && order[0] == b && stamp == old(stamp)[b := old(clock)] && clock > old(clock)
      ensures old(bufs[b].refcnt) > 1 ==> order == old(order) && stamp == old(stamp)
    {
      hide Ring, LruOrder, UniqueKeys, Transparent;
      bufs := SetRef(bufs, b, bufs[b].refcnt - 1);
      SameLinksRing(old(bufs), bufs, order);
      SameDataKeeps(old(bufs), bufs, dev, disk);
      if bufs[b].refcnt == 0 {
        MoveToFront(b);
      }
    }

    /** bio.c:200-208 */
    method MoveToFront(b: nat)
      requires Valid() && b < HEAD
      modifies this`bufs, this`order, this`stamp, this`clock
      ensures Valid() && Refs() == old(Refs())
      ensures forall j :: 0 <= j < 31 ==> bufs[j] == old(bufs[j]).(prev := bufs[j].prev, next := bufs[j].next)
      ensures |order| > 0 && order[0] == b && stamp == old(stamp)[b := old(clock)] && clock > old(clock)
    {
      hide Ring, LruOrder, UniqueKeys, Transparent;
      ghost var p := Position(order, stamp, clock, b);
      ReleaseRing(bufs, order, p);
      MoveToFrontLru(order, stamp, clock, p);
      bufs := Release(bufs, b);
      SameDataKeeps(old(bufs), bufs, dev, disk);
      order, stamp, clock := [b] + RemoveAt(order, p), stamp[b := clock], clock + 1;
    }
  }
}

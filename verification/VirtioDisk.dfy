/**
 The split-ring block driver (kernel/driver/virtio_disk.c) composed with a step
 model of the device (split virtqueues, sections 2.4.5 to 2.4.8 of VirtIO 1.0).

 The driver and the device share the descriptor table, the two rings, the request
 headers, the status bytes and the data memory of the buffers.  A buffer is named
 by its index, and its data memory is `dma`.
 */
module Virtio {
  import opened Layout

  type Sector = s: seq<byte> | |s| == 512 witness seq(512, i => 0)

  const NEXT: nat := 1
  const WRITE: nat := 2

  /** What a descriptor's address points at. */
  datatype Address = NoAddr | Header(slot: nat) | Data(buf: nat) | StatusOf(slot: nat)

  /** struct virtq_desc */
  datatype Desc = Desc(addr: Address, len: nat, flags: nat, next: nat)

  /** struct virtio_blk_req */
  datatype Request = Request(kind: nat, sector: nat)

  const T_IN: nat := 0
  const T_OUT: nat := 1

  function Inc16(i: u16): u16 { (i as int + 1) % 0x1_0000 }

  /** Consecutive 16-bit indices name consecutive ring entries, wrap-around included. */
  lemma RingContinues(i: u16)
    ensures Inc16(i) == (if i == 0xffff then 0 else i + 1) && Inc16(i) % 8 == (i % 8 + 1) % 8
  {
    if i == 0xffff {
      assert Inc16(i) == 0;
    }
  }

  /** The entry i places further along the ring. */
  function SlotAfter(index: u16, i: nat): nat { (index % 8 + i) % 8 }

  lemma SlotStart(index: u16)
    ensures SlotAfter(index, 0) == index % 8
  {}

  lemma SlotStep(start: u16, index: u16, i: nat)
    requires index % 8 == SlotAfter(start, i)
    ensures Inc16(index) % 8 == SlotAfter(start, i + 1)
  {
    RingContinues(index);
  }

  function Join(a: Sector, b: Sector): (r: Block)
    ensures r[..512] == a && r[512..] == b
  {
    var x: seq<byte>, y: seq<byte> := a, b;
    x + y
  }

  /** The sectors of a disk grouped into blocks of BSIZE bytes. */
  function Blocks(sectors: seq<Sector>): (r: seq<Block>)
    ensures |r| == |sectors| / 2
  {
    seq(|sectors| / 2, i requires 0 <= i < |sectors| / 2 => Join(sectors[2 * i], sectors[2 * i + 1]))
  }

  lemma BlockAt(sectors: seq<Sector>, n: nat)
    requires n < |sectors| / 2
    ensures Blocks(sectors)[n] == Join(sectors[2 * n], sectors[2 * n + 1])
    ensures Blocks(sectors)[n][..512] == sectors[2 * n] && Blocks(sectors)[n][512..] == sectors[2 * n + 1]
  {}

  lemma BlocksAfterWrite(sectors: seq<Sector>, n: nat, data: Block)
    requires n < |sectors| / 2
    ensures Blocks(sectors[2 * n := data[..512]][2 * n + 1 := data[512..]]) == Blocks(sectors)[n := data]
  {
    var s' := sectors[2 * n := data[..512]][2 * n + 1 := data[512..]];
    assert Join(data[..512], data[512..]) == data[..512] + data[512..] == data;
    forall i | 0 <= i < |sectors| / 2
      ensures Blocks(s')[i] == Blocks(sectors)[n := data][i]
    {
      if i != n {
        assert s'[2 * i] == sectors[2 * i] && s'[2 * i + 1] == sectors[2 * i + 1];
      }
    }
  }

  /** A request: read block n into buffer buf, or write data from buffer buf to block n. */
  datatype DiskOp = DiskRead(buf: nat, n: nat) | DiskWrite(buf: nat, n: nat, data: Block)

  /** The disk after the requests, one after the other. */
  ghost function AfterOps(disk: seq<Block>, reqs: seq<DiskOp>): (r: seq<Block>)
    ensures |r| == |disk|
  {
    if reqs == [] then disk
    else
      var d := AfterOps(disk, reqs[..|reqs| - 1]);
      var q := reqs[|reqs| - 1];
      if q.DiskWrite? && q.n < |d| then d[q.n := q.data] else d
  }

  lemma AfterNone(disk: seq<Block>, reqs: seq<DiskOp>)
    ensures AfterOps(disk, reqs[..0]) == disk
  {}

  lemma AfterOne(disk: seq<Block>, reqs: seq<DiskOp>, i: nat)
    requires i < |reqs| && reqs[i].n < |disk|
    ensures AfterOps(disk, reqs[..i + 1]) ==
      if reqs[i].DiskWrite? then AfterOps(disk, reqs[..i])[reqs[i].n := reqs[i].data] else AfterOps(disk, reqs[..i])
  {
    assert reqs[..i + 1][..i] == reqs[..i];
  }

  class VirtioDisk {
    // memory shared with the device
    var desc: seq<Desc>
    var availRing: seq<nat>
    var availIdx: u16
    var usedRing: seq<nat>
    var usedIdx: u16
    var ops: seq<Request>
    var infoStatus: seq<byte>
    var dma: seq<Block>
    // private to the driver
    var free: seq<bool>
    var seenUsed: u16
    var infoBuf: seq<nat>
    var busy: seq<bool>
    // private to the device
    var seenAvail: u16
    var sectors: seq<Sector>

    ghost predicate Shape()
      reads this
    {
      |desc| == 8 && |availRing| == 8 && |usedRing| == 8 && |ops| == 8 && |infoStatus| == 8 &&
      |free| == 8 && |infoBuf| == 8 && |dma| == |busy|
    }

    /** Between requests: all descriptors free, nothing submitted, nothing unread. */
    ghost predicate Idle()
      reads this
    {
      Shape() &&
      (forall i :: 0 <= i < 8 ==> free[i] && desc[i].flags == 0) &&
      seenAvail == availIdx && seenUsed == usedIdx &&
      forall b :: 0 <= b < |busy| ==> !busy[b]
    }

    function Disk(): seq<Block>
      reads this`sectors
    {
      Blocks(sectors)
    }

    constructor (nbuf: nat, image: seq<Sector>)
      ensures Idle() && |busy| == nbuf && sectors == image
    {
      desc := seq(8, i => Desc(NoAddr, 0, 0, 0));
      availRing, usedRing := seq(8, i => 0), seq(8, i => 0);
      availIdx, usedIdx, seenUsed, seenAvail := 0, 0, 0, 0;
      ops := seq(8, i => Request(0, 0));
      infoStatus := seq(8, i => 0);
      dma := seq(nbuf, i => ZeroBlock());
      free := seq(8, i => true);
      infoBuf := seq(8, i => 0);
      busy := seq(nbuf, i => false);
      sectors := image;
    }

    /** alloc_desc: the first free descriptor. */
    method AllocDesc() returns (i: nat)
      requires Shape() && exists k :: 0 <= k < 8 && free[k]
      modifies this`free
      ensures i < 8 && old(free[i]) && forall k :: 0 <= k < i ==> !old(free[k])
      ensures free == old(free)[i := false]
    {
      i := 0;
      while !free[i]
        invariant i < 8 && forall k :: 0 <= k < i ==> !free[k]
        decreases 8 - i
      {
        i := i + 1;
      }
      free := free[i := false];
    }

    /** The chain a -> b -> c: two descriptors with the NEXT flag and one without. */
    ghost predicate Chain3(a: nat, b: nat, c: nat)
      reads this
    {
      Shape() && a < 8 && b < 8 && c < 8 && a != b && b != c && a != c &&
      desc[a].flags % 2 == 1 && desc[a].next == b &&
      desc[b].flags % 2 == 1 && desc[b].next == c &&
      desc[c].flags % 2 == 0
    }

    /** free_chain: frees exactly the descriptors linked by NEXT, three of them here. */
    method FreeChain(head: nat, ghost b: nat, ghost c: nat)
      requires Chain3(head, b, c)
      modifies this`free, this`desc
      ensures Shape()
      ensures free == old(free)[head := true][b := true][c := true]
      ensures forall k ::
        0 <= k < 8 ==> desc[k] == if k == head || k == b || k == c then old(desc[k]).(flags := 0) else old(desc[k])
    {
      var i := head;
      var more := true;
      while more
        invariant Shape()
        invariant more && i == head ==> free == old(free) && desc == old(desc)
        invariant more && i == b ==>
          free == old(free)[head := true] && desc == old(desc)[head := old(desc[head]).(flags := 0)]
        invariant more && i == c ==>
          free == old(free)[head := true][b := true] &&
          desc == old(desc)[head := old(desc[head]).(flags := 0)][b := old(desc[b]).(flags := 0)]
        invariant more ==> i == head || i == b || i == c
        invariant !more ==>
          free == old(free)[head := true][b := true][c := true] &&
          desc ==
          old(desc)[head := old(desc[head]).(flags := 0)]
                   [b := old(desc[b]).(flags := 0)]
                   [c := old(desc[c]).(flags := 0)]
        decreases if !more then 0 else if i == c then 1 else if i == b then 2 else 3
      {
        var next := desc[i].next;
        var flag := desc[i].flags;
        free := free[i := true];
        desc := desc[i := desc[i].(flags := 0)];
        if flag % 2 == 1 {
          i := next;
        } else {
          more := false;
        }
      }
    }

    /** A complete request for buffer `buf` sits at the head of the available ring. */
    ghost predicate Submitted(head: nat, b: nat, c: nat, buf: nat, kind: nat, n: nat)
      reads this
    {
      Chain3(head, b, c) && buf < |busy| && 2 * n + 1 < |sectors| &&
      availRing[seenAvail % 8] == head && availIdx == Inc16(seenAvail) &&
      desc[head].addr == Header(head) && ops[head] == Request(kind, 2 * n) && (kind == T_IN || kind == T_OUT) &&
      desc[b].addr == Data(buf) && desc[b].len == 1024 && (kind == T_IN <==> desc[b].flags / 2 % 2 == 1) &&
      desc[c].addr == StatusOf(head) && desc[c].flags / 2 % 2 == 1 &&
      infoBuf[head] == buf
    }

    /** One step of the device: serve the next chain of the available ring. */
    method DeviceStep(ghost b: nat, ghost c: nat, ghost buf: nat, ghost kind: nat, ghost n: nat)
      requires Shape() && seenAvail != availIdx
      requires Submitted(availRing[seenAvail % 8], b, c, buf, kind, n)
      modifies this`seenAvail, this`usedIdx, this`usedRing, this`infoStatus, this`dma, this`sectors
      ensures Shape() && seenAvail == availIdx && usedIdx == Inc16(old(usedIdx))
      ensures usedRing[old(usedIdx) % 8] == availRing[old(seenAvail) % 8]
      ensures infoStatus[availRing[old(seenAvail) % 8]] == 0
      ensures kind == T_IN ==> sectors == old(sectors) && dma == old(dma)[buf := old(Disk())[n]]
      ensures kind == T_OUT ==> Disk() == old(Disk())[n := dma[buf]] && dma == old(dma) && |sectors| == |old(sectors)|
    {
      hide Blocks, Inc16;
      var head := availRing[seenAvail % 8];
      var d1 := desc[desc[head].next];
      var d2 := desc[d1.next];
      Transfer(ops[desc[head].addr.slot], d1.addr.buf, n);
      infoStatus := infoStatus[d2.addr.slot := 0];
      usedRing := usedRing[usedIdx % 8 := head];
      usedIdx := Inc16(usedIdx);
      seenAvail := Inc16(seenAvail);
    }

    /** The device moves the two sectors of block n from or to the data memory of a buffer. */
    method Transfer(req: Request, buf: nat, ghost n: nat)
      requires buf < |dma| && req.sector == 2 * n && 2 * n + 1 < |sectors|
      modifies this`dma, this`sectors
      ensures |dma| == |old(dma)| && |sectors| == |old(sectors)|
      ensures req.kind == 0 ==> sectors == old(sectors) && dma == old(dma)[buf := old(Disk())[n]]
      ensures req.kind != 0 ==> Disk() == old(Disk())[n := dma[buf]] && dma == old(dma)
    {
      hide Blocks, Join;
      BlockAt(sectors, n);
      if req.kind == T_IN {
        dma := dma[buf := Join(sectors[req.sector], sectors[req.sector + 1])];
      } else {
        var data := dma[buf];
        BlocksAfterWrite(sectors, n, data);
        sectors := sectors[req.sector := data[..512]][req.sector + 1 := data[512..]];
      }
    }

    /** virtio_disk.c:236-239: the three descriptors of a request. */
    method AllocChain() returns (i0: nat, i1: nat, i2: nat)
      requires Shape() && forall i :: 0 <= i < 8 ==> free[i]
      modifies this`free
      ensures i0 == 0 && i1 == 1 && i2 == 2
      ensures free == old(free)[0 := false][1 := false][2 := false]
    {
      assert free[0];
      i0 := AllocDesc();
      assert free[1];
      i1 := AllocDesc();
      assert free[2];
      i2 := AllocDesc();
    }

    /** virtio_disk.c:241-264: request header, data and status descriptors. */
    method Fill(i0: nat, i1: nat, i2: nat, buf: nat, blockno: nat, write: bool)
      requires Shape() && i0 < 8 && i1 < 8 && i2 < 8 && i0 != i1 && i0 != i2 && i1 != i2
      modifies this`ops, this`desc, this`infoStatus
      ensures Shape()
      ensures ops[i0] == Request(if write then 1 else 0, 2 * blockno)
      ensures desc[i0] == Desc(Header(i0), 16, 1, i1) && desc[i1] == Desc(Data(buf), 1024, if write then 1 else 3, i2)
      ensures desc[i2] == Desc(StatusOf(i0), 1, 2, 0) && infoStatus[i0] == 0xff
      ensures forall k :: 0 <= k < 8 && k != i0 && k != i1 && k != i2 ==> desc[k] == old(desc[k])
    {
      ops := ops[i0 := Request(if write then T_OUT else T_IN, blockno * 2)];
      desc := desc[i0 := Desc(Header(i0), 16, NEXT, i1)];
      desc := desc[i1 := Desc(Data(buf), BSIZE, (if write then 0 else WRITE) + NEXT, i2)];
      infoStatus := infoStatus[i0 := 0xff];
      desc := desc[i2 := Desc(StatusOf(i0), 1, WRITE, 0)];
    }

    /** virtio_disk.c:241-274: fill the descriptors and publish the chain. */
    method Submit(buf: nat, blockno: nat, data: Block, write: bool) returns (i0: nat, i1: nat, i2: nat)
      requires Idle() && buf < |busy| && blockno < |sectors| / 2
      modifies this`free, this`ops, this`desc, this`infoStatus, this`infoBuf, this`busy, this`dma, this`availRing,
        this`availIdx
      ensures Submitted(i0, i1, i2, buf, if write then T_OUT else T_IN, blockno)
      ensures free == old(free)[i0 := false][i1 := false][i2 := false]
      ensures forall k :: 0 <= k < 8 && k != i0 && k != i1 && k != i2 ==> desc[k].flags == 0
      ensures busy == old(busy)[buf := true] && dma == old(dma)[buf := data]
      ensures availIdx == Inc16(old(availIdx)) && seenAvail != availIdx
    {
      i0, i1, i2 := AllocChain();
      Fill(i0, i1, i2, buf, blockno, write);
      Publish(i0, buf, data);
    }

    /** virtio_disk.c:266-274: the buffer is busy, and the chain is on the available ring. */
    method Publish(head: nat, buf: nat, data: Block)
      requires Shape() && head < 8 && buf < |busy| && seenAvail == availIdx
      modifies this`infoBuf, this`busy, this`dma, this`availRing, this`availIdx
      ensures Shape() && infoBuf[head] == buf && busy == old(busy)[buf := true] && dma == old(dma)[buf := data]
      ensures availRing[seenAvail % 8] == head && availIdx == Inc16(old(availIdx)) && seenAvail != availIdx
    {
      dma := dma[buf := data];
      infoBuf := infoBuf[head := buf];
      busy := busy[buf := true];
      availRing := availRing[availIdx % 8 := head];
      availIdx := Inc16(availIdx);
    }

    /**
     virtio_disk.c:280-291: poll until the buffer is no longer busy.  The device answers
     after an arbitrary number `latency` of polls.
     */
    method Await(buf: nat, latency: nat, ghost i0: nat, ghost i1: nat, ghost i2: nat, ghost kind: nat, ghost n: nat)
      requires Submitted(i0, i1, i2, buf, kind, n) && busy[buf] && seenAvail != availIdx && seenUsed == usedIdx
      modifies this`seenAvail, this`usedIdx, this`usedRing, this`infoStatus, this`dma, this`sectors, this`busy,
        this`seenUsed
      ensures Shape() && Chain3(i0, i1, i2)
      ensures seenAvail == availIdx && seenUsed == usedIdx == Inc16(old(usedIdx))
      ensures busy == old(busy)[buf := false]
      ensures kind == T_IN ==> sectors == old(sectors) && dma == old(dma)[buf := old(Disk())[n]]
      ensures kind == T_OUT ==> Disk() == old(Disk())[n := dma[buf]] && dma == old(dma) && |sectors| == |old(sectors)|
    {
      var left := latency;
      while busy[buf]
        invariant |busy| == old(|busy|)
        invariant busy[buf] ==>
          unchanged(this)
        invariant !busy[buf] ==>
          Shape() && seenAvail == availIdx && seenUsed == usedIdx == Inc16(old(usedIdx)) &&
          busy == old(busy)[buf := false] &&
          (kind == T_IN ==> sectors == old(sectors) && dma == old(dma)[buf := old(Disk())[n]]) &&
          (kind == T_OUT ==> Disk() == old(Disk())[n := dma[buf]] && dma == old(dma) && |sectors| == |old(sectors)|)
        decreases busy[buf], left
      {
        if left > 0 {
          left := left - 1;
        } else {
          DeviceStep(i1, i2, buf, kind, n);
          Complete(i0);
        }
      }
    }

    /** virtio_disk_rw: one request from submission to completion. */
    method Rw(buf: nat, blockno: nat, data: Block, write: bool, latency: nat) returns (data': Block)
      requires Idle() && buf < |busy| && blockno < |sectors| / 2
      modifies this
      ensures Idle() && |busy| == old(|busy|) && |sectors| == old(|sectors|)
      ensures write ==> Disk() == old(Disk())[blockno := data] && data' == data
      ensures !write ==> Disk() == old(Disk()) && data' == Disk()[blockno]
      ensures dma == old(dma)[buf := data']
      ensures seenUsed == Inc16(old(seenUsed)) && availIdx == Inc16(old(availIdx))
    {
      var i0, i1, i2 := Submit(buf, blockno, data, write);
      Await(buf, latency, i0, i1, i2, if write then T_OUT else T_IN, blockno);
      data' := dma[buf];
      FreeChain(i0, i1, i2);
    }

    /**
     Any number of requests: each read returns what the writes before it left, and each
     request uses the ring entry after the last one's, also where the 16-bit indices wrap.
     */
    method RwAll(reqs: seq<DiskOp>) returns (got: seq<Block>)
      requires Idle() && forall i :: 0 <= i < |reqs| ==> reqs[i].buf < |busy| && reqs[i].n < |sectors| / 2
      modifies this
      ensures Idle() && Disk() == AfterOps(old(Disk()), reqs) && |got| == |reqs|
      ensures forall i :: 0 <= i < |reqs| && reqs[i].DiskRead? && reqs[i].n < |old(Disk())| ==>
        got[i] == AfterOps(old(Disk()), reqs[..i])[reqs[i].n]
      ensures availIdx % 8 == SlotAfter(old(availIdx), |reqs|) && seenUsed % 8 == SlotAfter(old(seenUsed), |reqs|)
    {
      hide Idle, Blocks, Inc16, SlotAfter, AfterOps;
      SlotStart(availIdx);
      SlotStart(seenUsed);
      assert |Disk()| == |sectors| / 2;
      got := [];
      AfterNone(Disk(), reqs);
      for i := 0 to |reqs|
        invariant Idle() && |busy| == old(|busy|) && |sectors| == old(|sectors|)
        invariant Disk() == AfterOps(old(Disk()), reqs[..i]) && |got| == i
        invariant forall j :: 0 <= j < i && reqs[j].DiskRead? && reqs[j].n < |old(Disk())| ==>
          got[j] == AfterOps(old(Disk()), reqs[..j])[reqs[j].n]
        invariant availIdx % 8 == SlotAfter(old(availIdx), i) && seenUsed % 8 == SlotAfter(old(seenUsed), i)
      {
        var q := reqs[i];
        SlotStep(old(availIdx), availIdx, i);
        SlotStep(old(seenUsed), seenUsed, i);
        AfterOne(old(Disk()), reqs, i);
        var latency: nat := *;
        var data := Rw(q.buf, q.n, if q.DiskWrite? then q.data else ZeroBlock(), q.DiskWrite?, latency);
        got := got + [data];
      }
      assert reqs[..|reqs|] == reqs;
    }

    /** virtio_disk.c:283-290: read the used ring until the driver has seen every entry. */
    method Complete(ghost head: nat)
      requires Shape() && head < 8 && usedIdx == Inc16(seenUsed) && usedRing[seenUsed % 8] == head
      requires infoBuf[head] < |busy| && infoStatus[head] == 0
      modifies this`busy, this`seenUsed
      ensures seenUsed == usedIdx && busy == old(busy)[infoBuf[head] := false]
    {
      while seenUsed != usedIdx
        invariant seenUsed == old(seenUsed) ==> busy == old(busy)
        invariant seenUsed == old(seenUsed) || (seenUsed == usedIdx && busy == old(busy)[infoBuf[head] := false])
        decreases seenUsed != usedIdx
      {
        var id := usedRing[seenUsed % 8];
        assert infoStatus[id] == 0;
        busy := busy[infoBuf[id] := false];
        seenUsed := Inc16(seenUsed);
      }
    }
  }
}

/**
 Physical pages and the allocator that links the free ones through their own first
 word (kernel/mm/kalloc.c, kernel/include/memlayout.h).
 */
module Kalloc {
  const PGSIZE: nat := 4096
  const KERNBASE: nat := 0x8000_0000
  const PHYSTOP: nat := 0x8800_0000

  type u64 = x: int | 0 <= x < 0x1_0000_0000_0000_0000
  type Page = s: seq<u64> | |s| == 512 witness seq(512, i => 0)

  function ZeroPage(): (r: Page)
    ensures forall i :: 0 <= i < 512 ==> r[i] == 0
  {
    seq(512, i => 0)
  }

  function PgRoundUp(a: nat): (r: nat)
    ensures r % 4096 == 0 && a <= r < a + 4096
  {
    (a + 4095) / 4096 * 4096
  }

  // ---------------------------------------------------------------- int stores through an address

  function PageOf(a: nat): nat { a / 4096 * 4096 }

  lemma PageStart(a: nat)
    ensures PageOf(a) == a - a % 4096
  {}

  /** The 64-bit word of its page that holds the byte at a. */
  function WordOf(a: nat): (r: nat)
    ensures r < 512
  {
    a % 4096 / 8
  }

  /** The four bytes at an aligned address a, of the 64-bit word w that holds them. */
  function GetInt(w: u64, a: nat): nat
  {
    if a % 8 == 0 then w % 0x1_0000_0000 else w / 0x1_0000_0000
  }

  /** w after *(int *)a = v. */
  function PutInt(w: u64, a: nat, v: int): u64
  {
    if a % 8 == 0 then w / 0x1_0000_0000 * 0x1_0000_0000 + v % 0x1_0000_0000
    else w % 0x1_0000_0000 + v % 0x1_0000_0000 * 0x1_0000_0000
  }

  /** The stored int reads back in two's complement, and the other half of the word stays. */
  lemma PutIntGet(w: u64, a: nat, v: int, b: nat)
    requires a % 4 == 0 && b % 4 == 0
    ensures GetInt(PutInt(w, a, v), b) == if b % 8 == a % 8 then v % 0x1_0000_0000 else GetInt(w, b)
  {
    Quarters(a);
    Quarters(b);
    Halves(w / 0x1_0000_0000, v % 0x1_0000_0000);
    Halves(v % 0x1_0000_0000, w % 0x1_0000_0000);
  }

  lemma Quarters(a: nat)
    requires a % 4 == 0
    ensures a % 8 == 0 || a % 8 == 4
  {}

  lemma Halves(high: nat, low: nat)
    requires high < 0x1_0000_0000 && low < 0x1_0000_0000
    ensures var w := high * 0x1_0000_0000 + low; w / 0x1_0000_0000 == high && w % 0x1_0000_0000 == low
  {}

  /** Memory after *(int *)a = v at an aligned address. */
  function IntStored(mem: map<nat, Page>, a: nat, v: int): (r: map<nat, Page>)
    ensures r.Keys == mem.Keys
  {
    if PageOf(a) in mem then
      mem[PageOf(a) := mem[PageOf(a)][WordOf(a) := PutInt(mem[PageOf(a)][WordOf(a)], a, v)]]
    else mem
  }

  /** *(int *)a = v writes the lower half of its word when a is a multiple of 8, and else the upper half. */
  lemma PutIntHalf(w0: u64, a: nat, v: int)
    requires a % 4 == 0
    ensures var w := PutInt(w0, a, v);
      if a % 8 == 0
      then w % 0x1_0000_0000 == v % 0x1_0000_0000 && w / 0x1_0000_0000 == w0 / 0x1_0000_0000
      else w / 0x1_0000_0000 == v % 0x1_0000_0000 && w % 0x1_0000_0000 == w0 % 0x1_0000_0000
  {
    PutIntGet(w0, a, v, a);
    PutIntGet(w0, a, v, a + 4);
    hide PutInt;
    Quarters(a);
  }

  /** Where that word is: number a % 4096 / 8 of the page of a; no other word changes. */
  lemma IntStoredWord(mem: map<nat, Page>, a: nat, v: int)
    requires a % 4 == 0 && a - a % 4096 in mem
    ensures var now, was := IntStored(mem, a, v)[a - a % 4096], mem[a - a % 4096];
      var w, w0 := now[a % 4096 / 8], was[a % 4096 / 8];
      (if a % 8 == 0
       then w % 0x1_0000_0000 == v % 0x1_0000_0000 && w / 0x1_0000_0000 == w0 / 0x1_0000_0000
       else w / 0x1_0000_0000 == v % 0x1_0000_0000 && w % 0x1_0000_0000 == w0 % 0x1_0000_0000) &&
      forall i :: 0 <= i < 512 && i != a % 4096 / 8 ==> now[i] == was[i]
    ensures forall q :: q in mem && q != a - a % 4096 ==> IntStored(mem, a, v)[q] == mem[q]
  {
    hide PutInt, PageOf;
    PageStart(a);
    PutIntHalf(mem[a - a % 4096][a % 4096 / 8], a, v);
  }

  /** The addresses kfree accepts. */
  predicate Frame(end: nat, pa: nat)
  {
    pa % 4096 == 0 && end <= pa < PHYSTOP
  }

  function Next(free: seq<nat>, i: int): nat
    requires -1 <= i < |free|
  {
    if i + 1 < |free| then free[i + 1] else 0
  }

  predicate Distinct(free: seq<nat>)
  {
    forall i, j :: 0 <= i < j < |free| ==> free[i] != free[j]
  }

  /** `free` is the list that starts at `head` and runs through word 0 of each page. */
  ghost predicate Chain(mem: map<nat, Page>, head: nat, free: seq<nat>)
  {
    head == Next(free, -1) && Distinct(free) &&
    (forall i :: 0 <= i < |free| ==> free[i] in mem && free[i] != 0) &&
    (forall i :: 0 <= i < |free| ==> mem[free[i]][0] == Next(free, i))
  }

  /** The pointer reached from `p` by n links. */
  ghost function Follow(mem: map<nat, Page>, p: nat, n: nat): nat
    decreases n
  {
    if n == 0 || p !in mem then p else Follow(mem, mem[p][0], n - 1)
  }

  /** The links end: they visit each free page once, in order, and then reach NULL. */
  lemma {:induction false} ChainEnds(mem: map<nat, Page>, free: seq<nat>, i: nat, n: nat)
    requires Chain(mem, Next(free, -1), free) && i <= |free| && n <= |free| - i
    ensures Follow(mem, Next(free, i - 1), n) == Next(free, i + n - 1)
    decreases n
  {
    hide Chain;
    if n > 0 {
      ChainLink(mem, free, i);
      ChainEnds(mem, free, i + 1, n - 1);
    }
  }

  lemma ChainLink(mem: map<nat, Page>, free: seq<nat>, i: nat)
    requires Chain(mem, Next(free, -1), free) && i < |free|
    ensures free[i] in mem && free[i] == Next(free, i - 1) && mem[free[i]][0] == Next(free, i)
  {
    hide Distinct;
  }

  /** Pushing a page: its first word links to the old head. */
  lemma PushChain(mem: map<nat, Page>, head: nat, free: seq<nat>, pa: nat)
    requires Chain(mem, head, free) && pa in mem && pa != 0 && pa !in free && head < 0x1_0000_0000_0000_0000
    ensures Chain(mem[pa := mem[pa][0 := head]], pa, [pa] + free)
  {
    var free' := [pa] + free;
    assert forall i :: 0 < i < |free'| ==> free'[i] == free[i - 1];
    assert forall i :: 0 < i < |free'| ==> Next(free', i) == Next(free, i - 1);
    assert Next(free', 0) == Next(free, -1);
  }

  /** A store keeps the free list exactly when it leaves the link in word 0 of a free page alone. */
  lemma StoreChain(mem: map<nat, Page>, head: nat, free: seq<nat>, pg: nat, idx: nat, w: u64)
    requires Chain(mem, head, free) && pg in mem && idx < 512
    ensures Chain(mem[pg := mem[pg][idx := w]], head, free) <==> (pg in free && idx == 0 ==> w == mem[pg][0])
  {
    var mem' := mem[pg := mem[pg][idx := w]];
    if pg in free {
      var i :| 0 <= i < |free| && free[i] == pg;
      assert mem'[free[i]][0] == if idx == 0 then w else mem[pg][0];
    }
  }

  class PhysMem {
    const end_address: nat
    var mem: map<nat, Page>
    var free_mem_list: nat
    ghost var free: seq<nat>

    ghost predicate Valid()
      reads this
    {
      0 < end_address && Chain(mem, free_mem_list, free) &&
      (forall pa :: Frame(end_address, pa) ==> pa in mem) &&
      (forall i :: 0 <= i < |free| ==> Frame(end_address, free[i]))
    }

    /** The machine at reset: arbitrary contents, and a null list head in .bss. */
    constructor (end: nat, ram: map<nat, Page>)
      requires KERNBASE <= end
      requires forall pa :: Frame(end, pa) ==> pa in ram
      ensures Valid() && end_address == end && mem == ram && free == []
    {
      end_address := end;
      mem := ram;
      free_mem_list := 0;
      free := [];
    }

    /** kinit: every page from end_address to PHYSTOP, the highest first. */
    method Kinit()
      requires Valid() && free == []
      modifies this
      ensures Valid() && mem.Keys == old(mem.Keys)
      ensures forall pa :: pa in free <==> pa % 4096 == 0 && end_address <= pa < 0x8800_0000
      ensures PgRoundUp(end_address) <= PHYSTOP ==> |free| == (PHYSTOP - PgRoundUp(end_address)) / 4096
      ensures forall i :: 0 <= i < |free| ==> free[i] == 0x8800_0000 - 4096 * (i + 1)
    {
      hide Valid, PgRoundUp;
      var p := PgRoundUp(end_address);
      ghost var base := p;
      while p + PGSIZE <= PHYSTOP
        invariant Valid() && mem.Keys == old(mem.Keys)
        invariant p == base + 4096 * |free| && (free != [] ==> p <= PHYSTOP)
        invariant forall i :: 0 <= i < |free| ==> free[i] == p - 4096 * (i + 1)
        decreases PHYSTOP - p
      {
        Kfree(p);
        p := p + PGSIZE;
      }
      forall pa | base <= pa && Frame(end_address, pa)
        ensures pa in free
      {
        assert free[(PHYSTOP - pa) / 4096 - 1] == pa;
      }
    }

    /** kfree: push on the list, using the page's own first word for the link. */
    method Kfree(pa: nat)
      requires Valid() && Frame(end_address, pa) && pa !in free
      modifies this`mem, this`free_mem_list, this`free
      ensures Valid() && free == [pa] + old(free)
      ensures pa in old(mem) && mem == old(mem)[pa := old(mem)[pa][0 := old(free_mem_list)]] && free_mem_list == pa
    {
      PushChain(mem, free_mem_list, free, pa);
      hide Chain;
      mem := mem[pa := mem[pa][0 := free_mem_list]];
      free_mem_list := pa;
      free := [pa] + free;
    }

    /** The zeroing loop that kalloc, walk and kvmininit each have. */
    method ClearPage(pa: nat)
      requires pa in mem
      modifies this`mem
      ensures mem == old(mem)[pa := ZeroPage()]
      ensures old(Valid()) && pa !in free ==> Valid()
    {
      var i := 0;
      while i < 512
        invariant 0 <= i <= 512
        invariant mem.Keys == old(mem.Keys) && forall q :: q in mem && q != pa ==> mem[q] == old(mem[q])
        invariant forall k :: 0 <= k < i ==> mem[pa][k] == 0
      {
        mem := mem[pa := mem[pa][i := 0]];
        i := i + 1;
      }
      assert mem[pa] == ZeroPage();
    }

    /** One 64-bit store to a page that is not free. */
    method Store(pa: nat, idx: nat, w: u64)
      requires Valid() && pa in mem && pa !in free && idx < 512
      modifies this`mem
      ensures Valid() && mem == old(mem)[pa := old(mem)[pa][idx := w]]
    {
      mem := mem[pa := mem[pa][idx := w]];
    }

    /** A store of an int through an address, which may hit any page. */
    method StoreInt(a: nat, v: int)
      requires PageOf(a) in mem
      modifies this`mem
      ensures mem == IntStored(old(mem), a, v)
      ensures mem.Keys == old(mem.Keys) && a - a % 4096 in mem
      ensures a % 4 == 0 ==>
        var w, w0 := mem[a - a % 4096][a % 4096 / 8], old(mem)[a - a % 4096][a % 4096 / 8];
        if a % 8 == 0
        then w % 0x1_0000_0000 == v % 0x1_0000_0000 && w / 0x1_0000_0000 == w0 / 0x1_0000_0000
        else w / 0x1_0000_0000 == v % 0x1_0000_0000 && w % 0x1_0000_0000 == w0 % 0x1_0000_0000
      ensures a % 4 == 0 ==> forall q, i ::
        q in mem && 0 <= i < 512 && !(q == a - a % 4096 && i == a % 4096 / 8) ==> mem[q][i] == old(mem)[q][i]
    {
      hide PutInt;
      PageStart(a);
      if a % 4 == 0 {
        IntStoredWord(mem, a, v);
      }
      mem := mem[PageOf(a) := mem[PageOf(a)][WordOf(a) := PutInt(mem[PageOf(a)][WordOf(a)], a, v)]];
    }

    /** kalloc: the head of the list, zeroed; 0 exactly when no page is free. */
    method Kalloc() returns (r: nat)
      requires Valid()
      modifies this`mem, this`free_mem_list, this`free
      ensures Valid() && mem.Keys == old(mem.Keys)
      ensures r == 0 <==> old(free) == []
      ensures r == 0 ==> mem == old(mem) && free == []
      ensures r != 0 ==> old(free) == [r] + free && r !in free && Frame(end_address, r) && mem[r] == ZeroPage()
      ensures forall q :: q in mem && q != r ==> mem[q] == old(mem[q])
    {
      r := free_mem_list;
      if r != 0 {
        ghost var free0 := free;
        assert r == free[0];
        free_mem_list := mem[r][0];
        free := free[1..];
        assert forall i :: 0 <= i < |free| ==> free[i] == free0[i + 1];
        assert forall i :: 0 <= i < |free| ==> Next(free, i) == Next(free0, i + 1);
        ClearPage(r);
      }
    }

    /** The page-copying loop of fork. */
    method CopyPage(dst: nat, src: nat)
      requires dst in mem && src in mem
      modifies this`mem
      ensures mem == old(mem)[dst := old(mem[src])]
      ensures old(Valid()) && dst !in free ==> Valid()
    {
      var i := 0;
      while i < 512
        invariant 0 <= i <= 512
        invariant mem.Keys == old(mem.Keys) && forall q :: q in mem && q != dst ==> mem[q] == old(mem[q])
        invariant forall k :: 0 <= k < i ==> mem[dst][k] == old(mem[src][k])
        invariant forall k :: i <= k < 512 ==> mem[dst][k] == old(mem[dst][k])
      {
        mem := mem[dst := mem[dst][i := mem[src][i]]];
        i := i + 1;
      }
      assert mem[dst] == old(mem[src]);
    }
  }
}

/**
 The process table in memory (kernel/proc/proc.c): loops over the table, pages from the
 allocator, and the kernel's page table beside them. Each method is one step of the state
 machine of module Sched.
 */
module ProcTables {
  import opened Kalloc
  import opened Vm
  import opened Sched
  import opened ProcInv
  import opened ProcRuns

  /** Word of struct trapframe that holds a0. */
  const A0: nat := 14

  /** Words of struct trapframe that hold epc and sp. */
  const EPC: nat := 3
  const SP: nat := 6

  /** Pages of live slots are pages of memory that kfree accepts. */
  ghost predicate Framed(procs: seq<Proc>, end: nat, mem: set<nat>)
  {
    Table(procs) && forall k, x :: Live(procs, k) && Owns(procs[k], x) ==> Frame(end, x) && x in mem
  }

  /** The table in .bss, as procinit leaves it. */
  ghost function EmptyTable(): (r: seq<Proc>)
    ensures Table(r)
  {
    seq(64, k => Proc(Free, 0, 0, 0, -1, -1, 0, -1))
  }

  lemma FramedKept(procs: seq<Proc>, procs': seq<Proc>, end: nat, mem: set<nat>)
    requires Framed(procs, end, mem) && Table(procs')
    requires forall k ::
      Live(procs', k) ==>
        Live(procs, k) && procs'[k].trapframe == procs[k].trapframe && procs'[k].kstack == procs[k].kstack
    ensures Framed(procs', end, mem)
  {
    assert forall k, x :: Live(procs', k) && Owns(procs'[k], x) ==> Owns(procs[k], x);
  }

  class ProcTable {
    const vm: KernelVm
    var procs: seq<Proc>
    var nextpid: nat
    var cur: int
    var cursor: int
    ghost var exits: map<nat, int>
    ghost var reaps: seq<Reaped>
    ghost var reserved: set<nat>

    ghost function St(): State
      reads this, vm.pm
    {
      State(procs, nextpid, cur, cursor, vm.pm.free, exits, reaps)
    }

    /** The allocator and the kernel's page table, whose pages are reserved. */
    ghost predicate Memory()
      reads this, vm, vm.pm
    {
      vm.Valid() && vm.nodes.Values <= reserved
    }

    ghost predicate Valid()
      reads this, vm, vm.pm
    {
      Memory() && Inv(St(), reserved) && Framed(procs, vm.pm.end_address, vm.pm.mem.Keys)
    }

    /**
     procinit and userinit, after kvmininit: slot 0 holds the first process, and its code
     and stack pages become user pages of the kernel's table. No other translation changes.
     */
    constructor Boot(kvm: KernelVm, etext: nat)
      requires kvm.Valid() && |kvm.pm.free| >= 4 && KERNBASE < etext < PHYSTOP && etext <= kvm.pm.end_address
      requires forall v :: 0 <= v < VPNS ==> kvm.Pte(v) == KernelPte(etext, v)
      modifies kvm, kvm.pm
      ensures Valid() && vm == kvm && St() == Booted(old(kvm.pm.free))
      ensures reserved == vm.nodes.Values + {old(kvm.pm.free[2]), old(kvm.pm.free[3])}
      ensures vm.Pte(old(kvm.pm.free[2]) / 4096) == old(kvm.pm.free[2]) / 4096 * 1024 + 31
      ensures vm.Pte(old(kvm.pm.free[3]) / 4096) == old(kvm.pm.free[3]) / 4096 * 1024 + 23
      ensures forall v ::
        0 <= v < VPNS && v != old(kvm.pm.free[2]) / 4096 && v != old(kvm.pm.free[3]) / 4096 ==>
          vm.Pte(v) == KernelPte(etext, v)
    {
      vm := kvm;
      procs := seq(64, k => Proc(Free, 0, 0, 0, -1, -1, 0, -1));
      nextpid := 1;
      cur := -1;
      cursor := 0;
      exits := map[];
      reaps := [];
      reserved := kvm.nodes.Values;
      new;
      Procinit();
      assert procs == EmptyTable();
      Userinit(etext);
    }

    /** userinit; none of its panics is reached. */
    method Userinit(ghost etext: nat)
      requires Memory() && reserved == vm.nodes.Values && |vm.pm.free| >= 4 && KERNBASE < etext < PHYSTOP
      requires etext <= vm.pm.end_address
      requires forall v :: 0 <= v < VPNS ==> vm.Pte(v) == KernelPte(etext, v)
      requires procs == EmptyTable() && nextpid == 1 && cur == -1 && cursor == 0 && exits == map[] && reaps == []
      modifies this, vm.pm`mem, vm.pm`free_mem_list, vm.pm`free, vm`nodes
      ensures Valid() && St() == Booted(old(vm.pm.free))
      ensures reserved == vm.nodes.Values + {old(vm.pm.free[2]), old(vm.pm.free[3])}
      ensures vm.Pte(old(vm.pm.free[2]) / 4096) == old(vm.pm.free[2]) / 4096 * 1024 + 31
      ensures vm.Pte(old(vm.pm.free[3]) / 4096) == old(vm.pm.free[3]) / 4096 * 1024 + 23
      ensures forall v ::
        0 <= v < VPNS && v != old(vm.pm.free[2]) / 4096 && v != old(vm.pm.free[3]) / 4096 ==>
          vm.Pte(v) == KernelPte(etext, v)
      ensures |procs| == 64 && procs[0] == Proc(Ready, 1, old(vm.pm.free[0]), old(vm.pm.free[1]), -1, -1, 0, -1)
      ensures nextpid == 2 && vm.pm.free == old(vm.pm.free)[4..]
      ensures forall k :: 1 <= k < 64 ==> procs[k].status == Free
      ensures old(vm.pm.free[0]) in vm.pm.mem
      ensures vm.pm.mem[old(vm.pm.free[0])] == ZeroPage()[3 := old(vm.pm.free[2])][6 := old(vm.pm.free[3]) + 4096]
    {
      hide KernelVm.Valid, KernelVm.Pte, Inv, KernelPte, MakePte, Frame, Distinct, Framed, Booted, EmptyTable, Table;
      ghost var pages := vm.pm.free;
      FreeFrames();
      FreeReserved();
      BootedInv(pages, reserved);
      DataPages(etext, pages);
      BootedFramed(pages, vm.pm.end_address, vm.pm.mem.Keys);
      assert pages[1] in pages && pages[2] in pages && pages[3] in pages;
      var p := FirstSlot();
      HeadGone(pages);
      var code, stack := UserMemory(procs[p].trapframe);
      SetReady();
      reserved := reserved + {code, stack};
      BootedIs(St(), pages);
    }

    /** userinit's code page, stack page and trapframe. */
    method UserMemory(tf: nat) returns (code: nat, stack: nat)
      requires Memory() && |vm.pm.free| >= 2 && forall x :: x in vm.pm.free ==> x < PHYSTOP && x / 4096 < VPNS
      requires vm.pm.free[0] / 4096 != vm.pm.free[1] / 4096
      requires vm.Pte(vm.pm.free[0] / 4096) == MakePte(vm.pm.free[0], PTE_R + PTE_W)
      requires vm.Pte(vm.pm.free[1] / 4096) == MakePte(vm.pm.free[1], PTE_R + PTE_W)
      requires tf in vm.pm.mem && tf !in vm.pm.free && tf !in vm.nodes.Values
      modifies vm.pm`mem, vm.pm`free_mem_list, vm.pm`free, vm`nodes
      ensures Memory() && vm.nodes == old(vm.nodes) && vm.pm.mem.Keys == old(vm.pm.mem.Keys)
      ensures code == old(vm.pm.free)[0] && stack == old(vm.pm.free)[1] && vm.pm.free == old(vm.pm.free)[2..]
      ensures vm.Pte(code / 4096) == code / 4096 * 1024 + 31 && vm.Pte(stack / 4096) == stack / 4096 * 1024 + 23
      ensures forall v :: 0 <= v < VPNS && v != code / 4096 && v != stack / 4096 ==> vm.Pte(v) == old(vm.Pte(v))
      ensures tf in vm.pm.mem && vm.pm.mem[tf] == ZeroPage()[3 := code][6 := stack + 4096]
    {
      hide KernelVm.Valid, KernelVm.Pte, MakePte, Frame;
      assert vm.pm.free[0] in vm.pm.free && vm.pm.free[1] in vm.pm.free;
      code := UserPage(true);
      stack := UserPage(false);
      SetTrapframe(tf, code, stack);
    }

    method SetReady()
      requires Table(procs) && procs == EmptyTable()[0 := procs[0]]
      modifies this`procs
      ensures procs == EmptyTable()[0 := old(procs[0]).(parent := -1, status := Ready)]
    {
      procs := procs[0 := procs[0].(parent := -1)];
      procs := procs[0 := procs[0].(status := Ready)];
    }

    static lemma BootedIs(s: State, pages: seq<nat>)
      requires |pages| >= 4 && s.procs == EmptyTable()[0 := Proc(Ready, 1, pages[0], pages[1], -1, -1, 0, -1)]
      requires s.nextpid == 2 && s.cur == -1 && s.cursor == 0 && s.free == pages[4..] && s.exits == map[]
      requires s.reaps == []
      ensures s == Booted(pages) && |s.procs| == 64 && forall k :: 1 <= k < 64 ==> s.procs[k].status == Free
    {
      assert s.procs == Booted(pages).procs;
    }

    /** userinit's slot, trapframe and kernel stack. */
    method FirstSlot() returns (p: int)
      requires Memory() && |vm.pm.free| >= 4 && nextpid == 1 && procs == EmptyTable()
      modifies this`procs, this`nextpid, vm.pm`mem, vm.pm`free_mem_list, vm.pm`free
      ensures Memory() && vm.pm.mem.Keys == old(vm.pm.mem.Keys) && vm.pm.free == old(vm.pm.free)[2..] && p == 0
      ensures nextpid == 2
      ensures procs == old(procs)[0 := Proc(Allocated, 1, old(vm.pm.free)[0], old(vm.pm.free)[1], -1, -1, 0, -1)]
      ensures forall v :: 0 <= v < VPNS ==> vm.Pte(v) == old(vm.Pte(v))
    {
      hide KernelVm.Valid, KernelVm.Pte, Frame;
      FirstAllocated(St());
      p := Allocproc();
      var kstack := vm.Kalloc();
      procs := procs[p := procs[p].(kstack := kstack)];
      assert procs == old(procs)[0 := procs[0]];
    }

    /** userinit's trapframe: cleared, then the entry point and the top of the stack. */
    method SetTrapframe(tf: nat, code: nat, stack: nat)
      requires vm.Valid() && tf in vm.pm.mem && tf !in vm.pm.free && tf !in vm.nodes.Values && code < PHYSTOP
      requires stack < PHYSTOP
      modifies vm.pm`mem
      ensures vm.Valid() && vm.pm.mem.Keys == old(vm.pm.mem.Keys)
      ensures vm.pm.mem == old(vm.pm.mem)[tf := ZeroPage()[3 := code][6 := stack + 4096]]
      ensures forall v :: 0 <= v < VPNS ==> vm.Pte(v) == old(vm.Pte(v))
    {
      hide KernelVm.Valid, KernelVm.Pte;
      vm.ClearData(tf);
      vm.StoreWord(tf, EPC, code);
      vm.StoreWord(tf, SP, stack + PGSIZE);
      assert vm.pm.mem.Keys == old(vm.pm.mem.Keys);
    }

    /** kalloc of a page that the kernel maps, and the user bits on its entry. */
    method UserPage(exec: bool) returns (page: nat)
      requires Memory() && vm.pm.free != [] && vm.pm.free[0] < PHYSTOP
      requires vm.Pte(vm.pm.free[0] / 4096) == MakePte(vm.pm.free[0], PTE_R + PTE_W)
      modifies vm.pm`mem, vm.pm`free_mem_list, vm.pm`free, vm`nodes
      ensures Memory() && vm.nodes == old(vm.nodes) && vm.pm.mem.Keys == old(vm.pm.mem.Keys)
      ensures old(vm.pm.free) == [page] + vm.pm.free
      ensures vm.Pte(page / 4096) == page / 4096 * 1024 + if exec then 31 else 23
      ensures forall v :: 0 <= v < VPNS && v != page / 4096 ==> vm.Pte(v) == old(vm.Pte(v))
      ensures forall q :: q in vm.pm.mem && q !in vm.nodes.Values && q != page ==> vm.pm.mem[q] == old(vm.pm.mem[q])
    {
      hide KernelVm.Valid, KernelVm.Pte, MakePte, Frame, Granted;
      FreeFrames();
      ghost var x := vm.pm.free[0];
      AlignedFrame(vm.pm.end_address, x);
      GrantedMeaning(x, exec, 0);
      MakePteBound(x);
      page := vm.Kalloc();
      vm.MappedHasTable(page / 4096);
      GrantUser(vm, page, exec);
    }

    static lemma AlignedFrame(end: nat, x: nat)
      requires Frame(end, x)
      ensures x % 4096 == 0 && x < PHYSTOP && x / 4096 < VPNS
    {}

    static lemma MakePteBound(x: u64)
      requires x < PHYSTOP
      ensures 0 < MakePte(x, PTE_R + PTE_W) < 0x40_0000_0000_0000
    {}

    /** The free pages lie above etext, so the kernel maps each of them readable and writable. */
    lemma DataPages(etext: nat, pages: seq<nat>)
      requires forall x :: x in pages ==> Frame(vm.pm.end_address, x)
      requires KERNBASE < etext < PHYSTOP && etext <= vm.pm.end_address
      ensures forall x ::
        x in pages ==> x < PHYSTOP && x / 4096 < VPNS && KernelPte(etext, x / 4096) == MakePte(x, PTE_R + PTE_W)
      ensures forall x, y :: x in pages && y in pages && x / 4096 == y / 4096 ==> x == y
    {
      forall x | x in pages
        ensures x < PHYSTOP && x / 4096 < VPNS && KernelPte(etext, x / 4096) == MakePte(x, PTE_R + PTE_W)
        ensures x == x / 4096 * 4096
      {
        assert PaOf(0, x / 4096) == x && etext / 4096 <= x / 4096 < 0x88000;
      }
    }

    lemma FreeReserved()
      requires Memory() && reserved == vm.nodes.Values
      ensures Distinct(vm.pm.free) && forall x :: x in vm.pm.free ==> x != 0 && x !in reserved
    {}

    static lemma HeadGone(pages: seq<nat>)
      requires Distinct(pages) && |pages| >= 4
      ensures pages[0] !in pages[2..] && pages[2..][0] == pages[2] && pages[2..][1] == pages[3]
      ensures pages[2..][2..] == pages[4..]
      ensures forall x :: x in pages[2..] ==> x in pages
      ensures pages[2] in pages && pages[3] in pages && pages[2] != pages[3]
    {}

    static lemma BootedFramed(pages: seq<nat>, end: nat, mem: set<nat>)
      requires |pages| >= 4 && forall x :: x in pages ==> Frame(end, x) && x in mem
      ensures Framed(Booted(pages).procs, end, mem)
    {
      assert pages[0] in pages && pages[1] in pages;
      hide Frame;
    }

    static lemma FirstAllocated(s: State)
      requires s.procs == EmptyTable() && s.free != []
      ensures FirstFree(s.procs, 0) == 0
    {}

    /** procinit: every slot becomes FREE. */
    method Procinit()
      requires Table(procs)
      modifies this`procs
      ensures Table(procs) && forall k :: Slot(k) ==> procs[k] == old(procs[k]).(status := Free)
    {
      var p := 0;
      while p < 64
        invariant 0 <= p <= 64 && Table(procs)
        invariant forall k :: 0 <= k < p ==> procs[k] == old(procs[k]).(status := Free)
        invariant forall k :: p <= k < 64 ==> procs[k] == old(procs[k])
      {
        procs := procs[p := procs[p].(status := Free)];
        p := p + 1;
      }
    }

    /** swtch into the scheduler: it clears cpu.proc and goes on with the next slot. */
    method SwitchToScheduler()
      requires Runs(St())
      modifies this`cur, this`cursor
      ensures St() == SwitchedOut(old(St()), old(procs[cur]))
    {
      assert procs[cur := procs[cur]] == procs;
      cursor := cur + 1;
      if cursor == 64 {
        cursor := 0;
      }
      cur := -1;
    }

    lemma ShapeOf()
      requires Valid()
      ensures Shape(St())
    {
      hide KernelVm.Valid, Forest, Sleepers, Pages, History;
    }

    /** scheduler: search from the loop's position, round and round, for a READY slot and run it. */
    method Scheduler() returns (i: int)
      requires Valid() && cur == -1 && exists j :: Slot(j) && Table(procs) && procs[j].status == Ready
      modifies this`procs, this`cur, this`cursor
      ensures Valid() && Step(old(St()), Dispatch(i), St())
      ensures 0 <= i < 64 && |old(procs)| == 64 && old(procs[i]).status == Ready
      ensures procs == old(procs)[i := old(procs[i]).(status := Running)] && cur == cursor == i
      ensures forall k :: 0 <= k < 64 && old(procs[k]).status == Ready ==>
        (i - old(cursor)) % 64 <= (k - old(cursor)) % 64
    {
      hide Inv, KernelVm.Valid, Framed, Shape, IsNext;
      ShapeOf();
      CursorSlot(St());
      i := NextReady();
      NextIs(procs, cursor, i);
      DispatchKeeps(St(), i, reserved);
      procs := procs[i := procs[i].(status := Running)];
      FramedKept(old(procs), procs, vm.pm.end_address, vm.pm.mem.Keys);
      cur := i;
      cursor := i;
    }

    static lemma CursorSlot(s: State)
      requires Shape(s)
      ensures Table(s.procs) && Slot(s.cursor)
    {}

    /** The slot the search stops at, by the distance from where it starts. */
    static lemma NextIs(procs: seq<Proc>, cursor: int, i: int)
      requires Table(procs) && Slot(cursor) && IsNext(procs, cursor, i)
      ensures 0 <= i < 64 && procs[i].status == Ready
      ensures forall k :: 0 <= k < 64 && procs[k].status == Ready ==> (i - cursor) % 64 <= (k - cursor) % 64
    {
      assert forall k :: Slot(k) ==> Dist(cursor, k) == (k - cursor) % 64;
    }

    /** proc.c:230-236: the READY slot that comes next in the loop, which starts at its variable and wraps around. */
    method NextReady() returns (i: int)
      requires Table(procs) && Slot(cursor) && exists j :: Slot(j) && procs[j].status == Ready
      ensures IsNext(procs, cursor, i)
    {
      var p := cursor;
      ghost var j :| Slot(j) && procs[j].status == Ready;
      while procs[p].status != Ready
        invariant Slot(p) && forall k :: Slot(k) && procs[k].status == Ready ==> Dist(cursor, p) <= Dist(cursor, k)
        decreases 64 - Dist(cursor, p)
      {
        assert Dist(cursor, p) < Dist(cursor, j);
        p := if p + 1 == 64 then 0 else p + 1;
      }
      i := p;
    }

    /** yield */
    method Yield()
      requires Valid() && AtCall(St())
      modifies this`procs, this`cur, this`cursor
      ensures Valid() && Step(old(St()), Event.Yield, St())
      ensures procs == old(procs)[old(cur) := old(procs[cur]).(status := Ready)]
      ensures cur == -1 && cursor == (old(cur) + 1) % 64
    {
      hide Inv, KernelVm.Valid, Framed;
      ShapeOf();
      YieldKeeps(St(), reserved);
      procs := procs[cur := procs[cur].(status := Ready)];
      SwitchToScheduler();
      assert St() == Yielded(old(St()));
      FramedKept(old(procs), procs, vm.pm.end_address, vm.pm.mem.Keys);
    }

    /** sleep, up to its context switch; `arg` is the wait call to return into. */
    method Sleep(chan: int, arg: int)
      requires Runs(St())
      modifies this`procs, this`cur, this`cursor
      ensures St() == SwitchedOut(old(St()), old(procs[cur]).(chan := chan, status := Sleeping, waiting := arg))
    {
      procs := procs[cur := procs[cur].(chan := chan, status := Sleeping, waiting := arg)];
      SwitchToScheduler();
      assert procs == old(procs)[old(cur) := old(procs[cur]).(chan := chan, status := Sleeping, waiting := arg)];
    }

    /** wakeup */
    method Wakeup(chan: int)
      requires Table(procs)
      modifies this`procs
      ensures procs == Woken(old(procs), chan, cur)
      ensures |procs| == 64 && forall k :: 0 <= k < 64 ==>
        procs[k] ==
        if k != cur && old(procs[k]).status == Sleeping && old(procs[k]).chan == chan
        then old(procs[k]).(status := Ready) else old(procs[k])
    {
      var p := 0;
      while p < 64
        invariant 0 <= p <= 64 && Table(procs)
        invariant forall k :: 0 <= k < p ==> procs[k] == Woken(old(procs), chan, cur)[k]
        invariant forall k :: p <= k < 64 ==> procs[k] == old(procs[k])
      {
        if p != cur && procs[p].status == Sleeping && procs[p].chan == chan {
          procs := procs[p := procs[p].(status := Ready)];
        }
        p := p + 1;
      }
    }

    /** proc.c:301-307: the children of an exiting process go to slot 0. */
    method HandOver(me: int)
      requires Table(procs)
      modifies this`procs
      ensures Table(procs) && procs == HandedOver(old(procs), me)
    {
      var pp := 0;
      while pp < 64
        invariant 0 <= pp <= 64 && Table(procs)
        invariant forall k :: 0 <= k < pp ==> procs[k] == HandedOver(old(procs), me)[k]
        invariant forall k :: pp <= k < 64 ==> procs[k] == old(procs)[k]
      {
        if procs[pp].parent == me {
          procs := procs[pp := procs[pp].(parent := 0)];
        }
        pp := pp + 1;
      }
    }

    /** exit */
    method Exit(status: int)
      requires Valid() && AtCall(St())
      modifies this`procs, this`cur, this`cursor, this`exits
      ensures Valid() && Step(old(St()), Event.Exit(status), St())
      ensures cur == -1 && cursor == (old(cur) + 1) % 64 && exits == old(exits)[old(procs[cur]).pid := status]
      ensures |procs| == 64 && procs[old(cur)] == old(procs[cur]).(xstate := status, status := Zombie)
      ensures forall k :: 0 <= k < 64 && k != old(cur) ==>
        var p, p' := old(procs[k]), procs[k];
        p' == p.(parent := p'.parent, status := p'.status) &&
        p'.parent == (if p.parent == old(cur) then 0 else p.parent) &&
        p'.status == (if p.status == Sleeping && p.chan == old(procs[cur]).parent then Ready else p.status)
    {
      hide Inv, KernelVm.Valid, Exited, Framed, ExitOf;
      ghost var s := St();
      ShapeOf();
      NotOwnParent(s, reserved);
      ExitKeeps(s, status, reserved);
      BecomeZombie(status);
      ExitIs(s, status);
      ExitedIs(s, status);
      ExitLive(s, status, St());
      FramedKept(old(procs), procs, vm.pm.end_address, vm.pm.mem.Keys);
    }

    /** proc.c:297-312: status and children handed on, the parent woken, and off the processor. */
    method BecomeZombie(status: int)
      requires Runs(St()) && procs[cur].parent != cur
      modifies this`procs, this`cur, this`cursor, this`exits
      ensures St() == Exited(old(St()), status)
    {
      hide Exited;
      var me := cur;
      procs := procs[me := procs[me].(xstate := status)];
      HandOver(me);
      Wakeup(procs[me].parent);
      exits := exits[procs[me].pid := status];
      procs := procs[me := procs[me].(status := Zombie)];
      SwitchToScheduler();
      ExitMade(old(St()), status);
    }

    static lemma ExitLive(s: State, status: int, s': State)
      requires AtCall(s) && ExitOf(s, status, s') && s.procs[s.cur].status == Running
      ensures forall k :: Live(s'.procs, k) ==>
        Live(s.procs, k) && s'.procs[k].trapframe == s.procs[k].trapframe && s'.procs[k].kstack == s.procs[k].kstack
    {}

    /** The body of Exited, for a caller that keeps it folded. */
    static lemma ExitMade(s: State, status: int)
      requires Runs(s) && s.procs[s.cur].parent != s.cur
      ensures var t := HandedOver(s.procs[s.cur := s.procs[s.cur].(xstate := status)], s.cur);
        var u := Woken(t, t[s.cur].parent, s.cur);
        u[s.cur].pid == s.procs[s.cur].pid &&
        Exited(s, status) ==
        State(u[s.cur := u[s.cur].(status := Zombie)], s.nextpid, -1, (s.cur + 1) % 64, s.free,
              s.exits[s.procs[s.cur].pid := status], s.reaps)
    {}

    /** allocproc: the slot, or -1 when the table is full or no page is left. */
    method Allocproc() returns (k: int)
      requires Memory() && Table(procs)
      modifies this`procs, this`nextpid, vm.pm`mem, vm.pm`free_mem_list, vm.pm`free
      ensures Memory() && vm.pm.mem.Keys == old(vm.pm.mem.Keys) && St() == ProcAllocated(old(St()))
      ensures k == if FirstFree(old(procs), 0) == 64 || old(vm.pm.free) == [] then -1 else FirstFree(old(procs), 0)
      ensures k != -1 ==> PageTaken(old(vm.pm.free), procs[k].trapframe)
      ensures forall q :: q in vm.pm.mem && q !in old(vm.pm.free) ==> vm.pm.mem[q] == old(vm.pm.mem[q])
      ensures forall v :: 0 <= v < VPNS ==> vm.Pte(v) == old(vm.Pte(v))
    {
      hide KernelVm.Valid, KernelVm.Pte, FirstFree;
      k := FindFree();
      if k == 64 {
        return -1;
      }
      procs := procs[k := procs[k].(pid := nextpid)];
      nextpid := nextpid + 1;
      var page := vm.Kalloc();
      procs := procs[k := procs[k].(trapframe := page)];
      if page == 0 {
        procs := procs[k := procs[k].(status := Free)];
        assert procs[k] == old(procs[k]).(pid := old(nextpid), trapframe := 0);
        assert procs == old(procs)[k := procs[k]];
        return -1;
      }
      InitProc(k);
      assert procs == old(procs)[k := procs[k]];
    }

    /** allocproc's fields; a cleared context means that the process is not inside a system call. */
    method InitProc(k: int)
      requires Table(procs) && Slot(k)
      modifies this`procs
      ensures procs ==
        old(procs)[k := Proc(Allocated, old(procs[k]).pid, old(procs[k]).trapframe, old(procs[k]).kstack,
                             -1, -1, 0, -1)]
    {
      procs := procs[k := procs[k].(status := Allocated)];
      procs := procs[k := procs[k].(parent := -1)];
      procs := procs[k := procs[k].(chan := -1)];
      procs := procs[k := procs[k].(xstate := 0)];
      procs := procs[k := procs[k].(waiting := -1)];
      assert procs == old(procs)[k := procs[k]];
    }

    /** What a successful kalloc says about the page. */
    ghost predicate PageTaken(free: seq<nat>, page: nat)
      reads this, vm, vm.pm
    {
      free != [] && free[0] == page && page != 0 && page !in vm.pm.free && page !in vm.nodes.Values &&
      page in vm.pm.mem && Frame(vm.pm.end_address, page)
    }

    /** The scan for a FREE slot, 64 if there is none. */
    method FindFree() returns (k: int)
      requires Table(procs)
      ensures k == FirstFree(procs, 0)
    {
      k := 0;
      while k < 64 && procs[k].status != Free
        invariant 0 <= k <= 64 && FirstFree(procs, 0) == FirstFree(procs, k)
      {
        k := k + 1;
      }
    }

    /** fork: the child's pid, or -1; a child's trapframe is the caller's with a0 cleared. */
    method Fork() returns (pid: int)
      requires Valid() && AtCall(St())
      modifies this`procs, this`nextpid, vm.pm`mem, vm.pm`free_mem_list, vm.pm`free
      ensures Valid() && Step(old(St()), Event.Fork, St()) && pid == ForkResult(old(St()))
      ensures pid == -1 <==>
        (forall k :: 0 <= k < 64 ==> old(procs[k]).status != Free) || |old(vm.pm.free)| < 2
      ensures pid == -1 ==> forall k :: 0 <= k < 64 && old(procs[k]).status != Free ==> procs[k] == old(procs[k])
      ensures pid != -1 ==> pid == old(nextpid) && nextpid == old(nextpid) + 1 && vm.pm.free == old(vm.pm.free)[2..]
      ensures pid != -1 ==> exists k ::
        0 <= k < 64 && old(procs[k]).status == Free &&
        (forall j :: 0 <= j < k ==> old(procs[j]).status != Free) &&
        procs == old(procs)[k := Proc(Ready, pid, old(vm.pm.free)[0], old(vm.pm.free)[1], cur, -1, 0, -1)]
      ensures pid != -1 ==> procs[FirstFree(old(procs), 0)].pid == pid
      ensures pid != -1 ==> var c := procs[FirstFree(old(procs), 0)];
        c.trapframe in vm.pm.mem && procs[cur].trapframe in old(vm.pm.mem) &&
        vm.pm.mem[c.trapframe] == old(vm.pm.mem)[procs[cur].trapframe][14 := 0]
      ensures forall q ::
        q in vm.pm.mem && q !in old(vm.pm.free) ==> q in old(vm.pm.mem) && vm.pm.mem[q] == old(vm.pm.mem[q])
      ensures forall v :: 0 <= v < VPNS ==> vm.Pte(v) == old(vm.Pte(v))
    {
      hide KernelVm.Valid, KernelVm.Pte, FirstFree, Inv, Framed, Forked, ProcAllocated, ChildBuilt;
      ghost var s := St();
      ShapeOf();
      FreeFrames();
      Trapframe();
      ForkKeeps(s, reserved);
      ForkFramed(s, vm.pm.end_address, vm.pm.mem.Keys);
      ForkMade(s);
      ForkedIs(s);
      var np := Allocproc();
      if np == -1 {
        return -1;
      }
      AllocatedMade(s);
      pid := BuildChild(np);
    }

    /** fork after allocproc: the kernel stack, the copied trapframe, and the parent link. */
    method BuildChild(np: int) returns (pid: int)
      requires Memory() && Runs(St()) && Slot(np) && np != cur
      requires procs[np].trapframe in vm.pm.mem && procs[np].trapframe !in vm.pm.free
      requires procs[np].trapframe !in vm.nodes.Values
      requires procs[cur].trapframe in vm.pm.mem && procs[cur].trapframe !in vm.pm.free
      modifies this`procs, vm.pm`mem, vm.pm`free_mem_list, vm.pm`free
      ensures Memory() && vm.pm.mem.Keys == old(vm.pm.mem.Keys) && St() == ChildBuilt(old(St()), np)
      ensures pid == if old(vm.pm.free) == [] then -1 else old(procs[np]).pid
      ensures procs[cur] == old(procs[cur])
      ensures pid != -1 ==> procs[np].trapframe == old(procs[np]).trapframe && procs[np].pid == pid
      ensures pid != -1 ==> vm.pm.mem[procs[np].trapframe] == old(vm.pm.mem)[procs[cur].trapframe][14 := 0]
      ensures forall q ::
        q in vm.pm.mem && q !in old(vm.pm.free) && q != old(procs[np]).trapframe ==> vm.pm.mem[q] == old(vm.pm.mem[q])
      ensures forall v :: 0 <= v < VPNS ==> vm.Pte(v) == old(vm.Pte(v))
    {
      hide KernelVm.Valid, KernelVm.Pte, Frame, TablePage;
      var ks := vm.Kalloc();
      procs := procs[np := procs[np].(kstack := ks)];
      if ks == 0 {
        procs := procs[np := procs[np].(status := Free)];
        assert procs == ChildBuilt(old(St()), np).procs;
        return -1;
      }
      vm.CopyAndSet(procs[np].trapframe, procs[cur].trapframe, A0, 0);
      procs := procs[np := procs[np].(parent := cur)];
      procs := procs[np := procs[np].(status := Ready)];
      assert procs == ChildBuilt(old(St()), np).procs;
      pid := procs[np].pid;
    }

    /** What a successful allocproc leaves as it was. */
    static lemma AllocatedMade(s: State)
      requires Runs(s) && s.procs[s.cur].status == Running && FirstFree(s.procs, 0) < 64 && s.free != []
      ensures var k := FirstFree(s.procs, 0); var a := ProcAllocated(s);
        Table(a.procs) && a.procs[s.cur] == s.procs[s.cur] && k != s.cur && a.cur == s.cur && a.free == s.free[1..] &&
        a.procs[k].trapframe == s.free[0] && a.procs[k].pid == s.nextpid
      ensures ChildBuilt(ProcAllocated(s), FirstFree(s.procs, 0)).procs[FirstFree(s.procs, 0)].pid == s.nextpid
    {}

    /** The body of Forked, for a caller that keeps it folded. */
    static lemma ForkMade(s: State)
      requires Runs(s) && s.procs[s.cur].status == Running
      ensures var k := FirstFree(s.procs, 0);
        k != s.cur && Forked(s) == if k == 64 || s.free == [] then ProcAllocated(s) else ChildBuilt(ProcAllocated(s), k)
    {}

    lemma FreeFrames()
      requires vm.Valid()
      ensures forall x :: x in vm.pm.free ==> Frame(vm.pm.end_address, x) && x in vm.pm.mem
    {
      hide Tree, Distinct;
    }

    /** The running process owns its trapframe page. */
    lemma Trapframe()
      requires Valid() && Runs(St())
      ensures var t := procs[cur].trapframe; t in vm.pm.mem && t !in vm.pm.free && Frame(vm.pm.end_address, t)
    {
      hide KernelVm.Valid, Forest, Sleepers, History;
      OwnedPages(St(), cur, reserved);
      var t: nat := procs[cur].trapframe;
      assert Owns(procs[cur], t) && Live(procs, cur);
    }

    static lemma ForkFramed(s: State, end: nat, mem: set<nat>)
      requires Shape(s) && Runs(s) && Framed(s.procs, end, mem) && forall x :: x in s.free ==> Frame(end, x) && x in mem
      ensures Framed(Forked(s).procs, end, mem)
    {
      hide Shape, Forked, Framed, Frame;
      ForkCases(s);
      var k, s' := FirstFree(s.procs, 0), Forked(s);
      if k < 64 && |s.free| < 2 {
        var r, n :| FreeTouched(s, k, r, n, s');
        FramedKept(s.procs, s'.procs, end, mem);
      } else if k < 64 {
        ChildFramed(s, k, s', end, mem);
      }
    }

    static lemma ChildFramed(s: State, k: int, s': State, end: nat, mem: set<nat>)
      requires ChildAdded(s, k, s') && Framed(s.procs, end, mem)
      requires forall x :: x in s.free ==> Frame(end, x) && x in mem
      ensures Framed(s'.procs, end, mem)
    {
      forall j, x | Live(s'.procs, j) && Owns(s'.procs[j], x)
        ensures Frame(end, x) && x in mem
      {
        if j == k {
          assert x in s.free;
        } else {
          assert Owns(s.procs[j], x);
        }
      }
    }

    // -------------------------------------------------------------- wait

    /** wait is about to store a status: there is a zombie child, and the address is not null. */
    ghost predicate Stores(addr: nat)
      requires Runs(St())
      reads this, vm, vm.pm
    {
      addr != 0 && FirstZombie(procs, cur, 0) != -1
    }

    /**
     The exact condition for wait's store of a status: the address, which nothing checks,
     lies in a page above the kernel image, and the store spares the links of free pages
     and the entries of inner page tables.
     */
    ghost predicate StatusFits(addr: nat)
      requires Runs(St())
      reads this, vm, vm.pm
    {
      Stores(addr) ==>
        addr % 4 == 0 && PageOf(addr) in vm.pm.mem && Frame(vm.pm.end_address, PageOf(addr)) &&
        vm.StoreSpares(addr, procs[FirstZombie(procs, cur, 0)].xstate)
    }

    /** A null address, or one in a page that is neither free nor a table, is always right. */
    lemma PlainStatusFits(addr: nat)
      requires Valid() && Runs(St()) && addr % 4 == 0
      requires addr == 0 ||
        (Frame(vm.pm.end_address, PageOf(addr)) && PageOf(addr) !in vm.pm.free && PageOf(addr) !in vm.nodes.Values)
      ensures StatusFits(addr)
    {
      hide Inv, Framed, Tree, Chain, KernelVm.StoreSpares;
      if Stores(addr) {
        vm.PlainPageSpares(addr, procs[FirstZombie(procs, cur, 0)].xstate);
      }
    }

    /**
     What wait with this address returns and writes: the pid of the first zombie child, or
     -1 without any child, or a switch to another process; the child's exit status, and
     nothing else, in the pages that are not free afterwards.
     */
    ghost predicate WaitDid(s: State, mem: map<nat, Page>, addr: nat, pid: int, slept: bool)
      requires Runs(s)
      reads this, vm, vm.pm
    {
      var z := FirstZombie(s.procs, s.cur, 0);
      (slept <==> z == -1 && HasChild(s.procs, s.cur)) && (!slept ==> pid == WaitResult(s)) &&
      (z != -1 ==> pid in s.exits) &&
      forall q :: q in vm.pm.mem && q !in vm.pm.free ==>
        q in mem && vm.pm.mem[q] == if z != -1 && addr != 0 then IntStored(mem, addr, s.exits[pid])[q] else mem[q]
    }

    /**
     WaitDid by the words of memory: the status is an int at addr, whose word is number
     addr % 4096 / 8 of its page, and every other word of a page in use is as before.
     */
    lemma WaitWord(s: State, mem: map<nat, Page>, addr: nat, pid: int, slept: bool)
      requires Runs(s) && WaitDid(s, mem, addr, pid, slept) && mem.Keys == vm.pm.mem.Keys
      requires FirstZombie(s.procs, s.cur, 0) != -1 && addr != 0 ==> addr % 4 == 0 && addr - addr % 4096 in mem
      ensures slept ==> FirstZombie(s.procs, s.cur, 0) == -1
      ensures !slept ==> (pid != -1 <==> FirstZombie(s.procs, s.cur, 0) != -1)
      ensures var pg, j := addr - addr % 4096, addr % 4096 / 8;
        !slept && pid != -1 && addr != 0 && pg !in vm.pm.free ==>
          addr % 4 == 0 && pid in s.exits && pg in vm.pm.mem && pg in mem &&
          var v, w, w0 := s.exits[pid], vm.pm.mem[pg][j], mem[pg][j];
          if addr % 8 == 0
          then w % 0x1_0000_0000 == v % 0x1_0000_0000 && w / 0x1_0000_0000 == w0 / 0x1_0000_0000
          else w / 0x1_0000_0000 == v % 0x1_0000_0000 && w % 0x1_0000_0000 == w0 % 0x1_0000_0000
      ensures forall q, i ::
        q in vm.pm.mem && q !in vm.pm.free && 0 <= i < 512 &&
        !(!slept && pid != -1 && addr != 0 && q == addr - addr % 4096 && i == addr % 4096 / 8) ==>
          q in mem && vm.pm.mem[q][i] == mem[q][i]
    {
      hide IntStored, FirstZombie, HasChild, PutInt;
      if FirstZombie(s.procs, s.cur, 0) != -1 && addr != 0 {
        IntStoredWord(mem, addr, s.exits[pid]);
      }
    }

    /** One pass of wait's loop; `slept` says that it ended in sleep and pid means nothing. */
    method Wait(addr: nat) returns (pid: int, slept: bool)
      requires Valid() && AtCall(St()) && StatusFits(addr)
      modifies this`procs, this`cur, this`cursor, this`reaps, vm.pm`mem, vm.pm`free_mem_list, vm.pm`free
      ensures Valid() && St() == Waited(old(St()), addr) && Step(old(St()), Event.Wait(addr), St())
      ensures WaitDid(old(St()), old(vm.pm.mem), addr, pid, slept) && vm.pm.mem.Keys == old(vm.pm.mem.Keys)
      ensures var pg, j := addr - addr % 4096, addr % 4096 / 8;
        !slept && pid != -1 && addr != 0 && pg !in vm.pm.free ==>
          addr % 4 == 0 && pid in exits && pg in vm.pm.mem && pg in old(vm.pm.mem) &&
          var v, w, w0 := exits[pid], vm.pm.mem[pg][j], old(vm.pm.mem)[pg][j];
          if addr % 8 == 0
          then w % 0x1_0000_0000 == v % 0x1_0000_0000 && w / 0x1_0000_0000 == w0 / 0x1_0000_0000
          else w / 0x1_0000_0000 == v % 0x1_0000_0000 && w % 0x1_0000_0000 == w0 % 0x1_0000_0000
      ensures forall q, i ::
        q in vm.pm.mem && q !in vm.pm.free && 0 <= i < 512 &&
        !(!slept && pid != -1 && addr != 0 && q == addr - addr % 4096 && i == addr % 4096 / 8) ==>
          q in old(vm.pm.mem) && vm.pm.mem[q][i] == old(vm.pm.mem)[q][i]
      ensures !slept && pid == -1 ==>
        (forall k :: 0 <= k < 64 ==> old(procs[k]).parent != cur) && St() == old(St())
      ensures !slept && pid != -1 ==> cur == old(cur) && exists z ::
        0 <= z < 64 && old(procs[z]).parent == cur && old(procs[z]).status == Zombie && old(procs[z]).pid == pid &&
        (forall k :: 0 <= k < z ==> !(old(procs[k]).parent == cur && old(procs[k]).status == Zombie)) &&
        procs == old(procs)[z := old(procs[z]).(status := Free, pid := 0, trapframe := 0, kstack := 0, parent := -1)]
      ensures slept ==>
        cur == -1 && (exists k :: 0 <= k < 64 && old(procs[k]).parent == old(cur)) &&
        (forall k :: 0 <= k < 64 ==> !(old(procs[k]).parent == old(cur) && old(procs[k]).status == Zombie)) &&
        procs == old(procs)[old(cur) := old(procs[cur]).(chan := old(cur), status := Sleeping, waiting := addr)]
      ensures !old(Stores(addr)) || PageOf(addr) !in vm.nodes.Values ==>
        forall v :: 0 <= v < VPNS ==> vm.Pte(v) == old(vm.Pte(v))
    {
      hide KernelVm.Valid, KernelVm.Pte, Inv, Framed, FirstZombie, HasChild, Waited, Collected, SwitchedOut,
        IntStored, KernelVm.StoreSpares, PageOf;
      ghost var s := St();
      WaitKeeps(s, addr, reserved);
      WaitMade(s, addr);
      var z, havekids := FindChild();
      if z != -1 {
        ZombiePages(z);
        pid := procs[z].pid;
        if addr != 0 {
          vm.StoreInt(addr, procs[z].xstate);
        }
        Reap(z);
        slept := false;
      } else if !havekids {
        pid, slept := -1, false;
      } else {
        ShapeOf();
        Sleep(cur, addr);
        pid, slept := -1, true;
        SleepFramed(s, addr, vm.pm.end_address, vm.pm.mem.Keys);
      }
      WaitWord(s, old(vm.pm.mem), addr, pid, slept);
      WaitedIs(s, addr);
    }

    /** The return from sleep in wait: the loop goes round once more with the same address. */
    method Resume() returns (pid: int, slept: bool)
      requires Valid() && Runs(St()) && !AtCall(St()) && StatusFits(procs[cur].waiting)
      modifies this`procs, this`cur, this`cursor, this`reaps, vm.pm`mem, vm.pm`free_mem_list, vm.pm`free
      ensures Valid() && Step(old(St()), Event.Resume, St())
      ensures WaitDid(old(St()), old(vm.pm.mem), old(procs[cur].waiting), pid, slept)
      ensures vm.pm.mem.Keys == old(vm.pm.mem.Keys)
      ensures var addr: nat := old(procs[cur].waiting); var pg, j := addr - addr % 4096, addr % 4096 / 8;
        !slept && pid != -1 && addr != 0 && pg !in vm.pm.free ==>
          addr % 4 == 0 && pid in exits && pg in vm.pm.mem && pg in old(vm.pm.mem) &&
          var v, w, w0 := exits[pid], vm.pm.mem[pg][j], old(vm.pm.mem)[pg][j];
          if addr % 8 == 0
          then w % 0x1_0000_0000 == v % 0x1_0000_0000 && w / 0x1_0000_0000 == w0 / 0x1_0000_0000
          else w / 0x1_0000_0000 == v % 0x1_0000_0000 && w % 0x1_0000_0000 == w0 % 0x1_0000_0000
      ensures var addr := old(procs[cur].waiting);
        forall q, i ::
          q in vm.pm.mem && q !in vm.pm.free && 0 <= i < 512 &&
          !(!slept && pid != -1 && addr != 0 && q == addr - addr % 4096 && i == addr % 4096 / 8) ==>
            q in old(vm.pm.mem) && vm.pm.mem[q][i] == old(vm.pm.mem)[q][i]
      ensures !slept ==> cur == old(cur) && procs[cur] == old(procs[cur]).(chan := -1, waiting := -1)
      ensures slept ==> cur == -1 && procs[old(cur)] == old(procs[cur]).(chan := old(cur), status := Sleeping)
      ensures !old(Stores(procs[cur].waiting)) || PageOf(old(procs[cur].waiting)) !in vm.nodes.Values ==>
        forall v :: 0 <= v < VPNS ==> vm.Pte(v) == old(vm.Pte(v))
    {
      hide KernelVm.Valid, KernelVm.Pte, Inv, Framed, Waited, FirstZombie, HasChild, IntStored, KernelVm.StoreSpares,
        PageOf, Shape;
      ghost var s := St();
      ResumeKeeps(s, reserved);
      ResumedChildren(s);
      ShapeOf();
      ResumedIs(s);
      var addr := procs[cur].waiting;
      procs := procs[cur := procs[cur].(chan := -1)];
      procs := procs[cur := procs[cur].(waiting := -1)];
      assert procs == Resumed(s).procs;
      FramedKept(s.procs, procs, vm.pm.end_address, vm.pm.mem.Keys);
      pid, slept := Wait(addr);
    }

    /** The caller's own record when it returns from sleep in wait. */
    static lemma ResumedIs(s: State)
      requires Shape(s) && Runs(s) && !AtCall(s)
      ensures var p := s.procs[s.cur]; var s' := Waited(Resumed(s), p.waiting);
        Table(s'.procs) &&
        (s'.cur == s.cur ==> s'.procs[s.cur] == p.(chan := -1, waiting := -1)) &&
        (s'.cur == -1 ==> s'.procs[s.cur] == p.(chan := s.cur, status := Sleeping))
    {
      hide FirstZombie;
      WaitedIs(Resumed(s), s.procs[s.cur].waiting);
    }

    /** The children of the current process are the same before and after it returns from sleep. */
    static lemma ResumedChildren(s: State)
      requires Runs(s)
      ensures FirstZombie(Resumed(s).procs, s.cur, 0) == FirstZombie(s.procs, s.cur, 0)
      ensures WaitResult(Resumed(s)) == WaitResult(s)
      ensures HasChild(Resumed(s).procs, s.cur) <==> HasChild(s.procs, s.cur)
      ensures var z := FirstZombie(s.procs, s.cur, 0); z != -1 ==> Resumed(s).procs[z].xstate == s.procs[z].xstate
    {
      var t := Resumed(s);
      assert forall k :: Slot(k) ==> (ZombieChild(t.procs, s.cur, k) <==> ZombieChild(s.procs, s.cur, k));
      assert forall k :: IsChild(t.procs, k, s.cur) <==> IsChild(s.procs, k, s.cur);
    }

    /** The scan of wait's loop: the first zombie child, or whether there is a child at all. */
    method FindChild() returns (z: int, havekids: bool)
      requires Runs(St())
      ensures z == FirstZombie(procs, cur, 0)
      ensures z == -1 ==> (havekids <==> HasChild(procs, cur))
    {
      havekids := false;
      var child := 0;
      while child < 64
        invariant 0 <= child <= 64 && FirstZombie(procs, cur, 0) == FirstZombie(procs, cur, child)
        invariant havekids <==> exists c :: 0 <= c < child && IsChild(procs, c, cur)
      {
        if procs[child].parent == cur {
          havekids := true;
          assert IsChild(procs, child, cur);
          if procs[child].status == Zombie {
            return child, true;
          }
        }
        child := child + 1;
      }
      z := -1;
    }

    /** wait's release of a zombie child: a clear slot, and both pages back on the free list. */
    method Reap(z: int)
      requires Valid() && AtCall(St()) && ZombieChild(procs, cur, z) && ZombieOwns(z)
      modifies this`procs, this`reaps, vm.pm`mem, vm.pm`free_mem_list, vm.pm`free
      ensures Valid() && St() == Collected(old(St()), z) && vm.pm.mem.Keys == old(vm.pm.mem.Keys)
      ensures forall q ::
        q in vm.pm.mem && q !in vm.pm.free ==> q in old(vm.pm.mem) && vm.pm.mem[q] == old(vm.pm.mem[q])
      ensures forall v :: 0 <= v < VPNS ==> vm.Pte(v) == old(vm.Pte(v))
    {
      hide KernelVm.Valid, KernelVm.Pte, Inv, Framed;
      ghost var s := St();
      CollectKeeps(s, z, reserved);
      reaps := reaps + [Reaped(procs[z].pid, cur, procs[z].xstate)];
      procs := procs[z := procs[z].(status := Free)];
      procs := procs[z := procs[z].(pid := 0)];
      procs := procs[z := procs[z].(parent := -1)];
      if procs[z].trapframe != 0 {
        vm.Kfree(procs[z].trapframe);
        procs := procs[z := procs[z].(trapframe := 0)];
      }
      if procs[z].kstack != 0 {
        vm.Kfree(procs[z].kstack);
        procs := procs[z := procs[z].(kstack := 0)];
      }
      assert procs[z] == Collected(s, z).procs[z];
      assert procs == Collected(s, z).procs;
      FramedKept(s.procs, procs, vm.pm.end_address, vm.pm.mem.Keys);
    }

    ghost predicate ZombieOwns(z: int)
      requires Slot(z) && Table(procs)
      reads this, vm, vm.pm
    {
      var t, k := procs[z].trapframe, procs[z].kstack;
      Frame(vm.pm.end_address, t) && Frame(vm.pm.end_address, k) && t !in vm.pm.free && k !in vm.pm.free && t != k &&
      t !in vm.nodes.Values && k !in vm.nodes.Values
    }

    lemma ZombiePages(z: int)
      requires Valid() && Runs(St()) && ZombieChild(procs, cur, z)
      ensures ZombieOwns(z) && procs[z].pid in exits && procs[z].xstate == exits[procs[z].pid]
    {
      hide KernelVm.Valid, Forest, Sleepers;
      assert Live(procs, z);
      OwnedPages(St(), z, reserved);
      var p := procs[z];
      var t: nat, k: nat := p.trapframe, p.kstack;
      assert Owns(p, t) && Owns(p, k);
    }

    static lemma SleepFramed(s: State, addr: nat, end: nat, mem: set<nat>)
      requires Shape(s) && Runs(s) && Framed(s.procs, end, mem)
      ensures
        Framed(SwitchedOut(s, s.procs[s.cur].(chan := s.cur, status := Sleeping, waiting := addr)).procs, end, mem)
    {
      FramedKept(s.procs, s.procs[s.cur := s.procs[s.cur].(chan := s.cur, status := Sleeping, waiting := addr)],
                 end, mem);
    }

    /** The body of Waited, for a caller that keeps it folded. */
    static lemma WaitMade(s: State, addr: int)
      requires Runs(s)
      ensures var z := FirstZombie(s.procs, s.cur, 0);
        (z != -1 ==> Waited(s, addr) == Collected(s, z) && ZombieChild(s.procs, s.cur, z)) &&
        (z == -1 && !HasChild(s.procs, s.cur) ==> Waited(s, addr) == s) &&
        (z == -1 && HasChild(s.procs, s.cur) ==>
          Waited(s, addr) == SwitchedOut(s, s.procs[s.cur].(chan := s.cur, status := Sleeping, waiting := addr)))
    {}
  }

  /**
   kinit, kvmininit, procinit and userinit in boot order: seventy-four free pages are enough
   for every one of their panics to be unreachable.
   */
  method BootKernel(end: nat, etext: nat, ram: map<nat, Page>) returns (t: ProcTable, ghost code: nat, ghost stack: nat)
    requires KERNBASE < etext <= end && etext % 4096 == 0 && PgRoundUp(end) + 74 * PGSIZE <= PHYSTOP
    requires forall pa :: Frame(end, pa) ==> pa in ram
    ensures t.Valid() && t.procs[0].status == Ready && t.procs[0].pid == 1
    ensures code in t.reserved && stack in t.reserved
    ensures 0x80000 <= code / 4096 < 0x88000 && 0x80000 <= stack / 4096 < 0x88000
    ensures code / 4096 != stack / 4096
    ensures t.vm.Pte(code / 4096) == code / 4096 * 1024 + 31 && t.vm.Pte(stack / 4096) == stack / 4096 * 1024 + 23
    ensures forall v :: 0 <= v < VPNS && v != code / 4096 && v != stack / 4096 ==> t.vm.Pte(v) == KernelPte(etext, v)
  {
    hide PhysMem.Valid, KernelVm.Valid, KernelVm.Pte, KernelPte, KernelTables, PgRoundUp, Inv, Framed, MakePte;
    var pm := new PhysMem(end, ram);
    pm.Kinit();
    assert |pm.free| >= 74;
    var vm, r := Kvmininit(pm, etext);
    assert r == Mapped;
    KernelTablesCard();
    CardMonotone(vm.nodes.Keys, KernelTables());
    assert |vm.nodes| == |vm.nodes.Keys| <= 70;
    code, stack := pm.free[2], pm.free[3];
    DistinctFree(vm);
    t := new ProcTable.Boot(vm, etext);
  }

  lemma DistinctFree(vm: KernelVm)
    requires vm.Valid() && |vm.pm.free| >= 4
    ensures vm.pm.free[2] / 4096 != vm.pm.free[3] / 4096
    ensures KERNBASE <= vm.pm.end_address ==>
      0x80000 <= vm.pm.free[2] / 4096 < 0x88000 && 0x80000 <= vm.pm.free[3] / 4096 < 0x88000
  {
    hide Tree;
    var p, q := vm.pm.free[2], vm.pm.free[3];
    assert Frame(vm.pm.end_address, p) && Frame(vm.pm.end_address, q) && p != q;
    assert p == p / 4096 * 4096 && q == q / 4096 * 4096;
  }
}

/**
 The process table as a state machine (kernel/proc/proc.c). A step is what runs between
 two context switches, or one system call of the running process. Slots are indices and
 a null pointer is -1.
 */
module Sched {
  import opened Kalloc

  datatype Status = Free | Allocated | Ready | Running | Sleeping | Zombie

  /** struct proc; `waiting` is the argument of the wait call the process is suspended in, or -1. */
  datatype Proc =
    Proc(status: Status, pid: nat, trapframe: nat, kstack: nat, parent: int, chan: int, xstate: int, waiting: int)

  /** One successful wait: child pid, slot of the caller, and the status it was given. */
  datatype Reaped = Reaped(pid: nat, parent: int, status: int)

  /**
   The table, the pid counter, cpu.proc, the scheduler's loop variable, the free pages, and
   what has happened: the status each pid exited with and the children collected.
   */
  datatype State = State(procs: seq<Proc>, nextpid: nat, cur: int, cursor: int, free: seq<nat>,
                         exits: map<nat, int>, reaps: seq<Reaped>)

  ghost predicate Slot(k: int) { 0 <= k < 64 }

  ghost predicate Table(procs: seq<Proc>) { |procs| == 64 }

  ghost predicate Live(procs: seq<Proc>, k: int)
    requires Table(procs)
  {
    Slot(k) && procs[k].status != Free
  }

  ghost predicate IsChild(procs: seq<Proc>, c: int, p: int)
    requires Table(procs)
  {
    Slot(c) && procs[c].parent == p
  }

  // ---------------------------------------------------------------- the steps

  /** Slots ahead of b when the scheduler's loop stands at a. */
  ghost function Dist(a: int, b: int): int
  {
    if a <= b then b - a else b - a + 64
  }

  /** The READY slot the scheduler's loop meets first. */
  ghost predicate IsNext(procs: seq<Proc>, cursor: int, i: int)
    requires Table(procs)
  {
    Slot(i) && procs[i].status == Ready &&
    forall j :: Slot(j) && procs[j].status == Ready ==> Dist(cursor, i) <= Dist(cursor, j)
  }

  ghost predicate Runs(s: State)
  {
    Table(s.procs) && Slot(s.cur)
  }

  ghost function Dispatched(s: State, i: int): State
    requires Table(s.procs) && Slot(i)
  {
    s.(procs := s.procs[i := s.procs[i].(status := Running)], cur := i, cursor := i)
  }

  /** swtch to the scheduler, which clears cpu.proc and moves on to the next slot. */
  ghost function SwitchedOut(s: State, p: Proc): State
    requires Runs(s)
  {
    s.(procs := s.procs[s.cur := p], cur := -1, cursor := (s.cur + 1) % 64)
  }

  ghost function Yielded(s: State): State
    requires Runs(s)
  {
    SwitchedOut(s, s.procs[s.cur].(status := Ready))
  }

  ghost function Woken(procs: seq<Proc>, chan: int, me: int): (r: seq<Proc>)
    requires Table(procs)
    ensures Table(r)
  {
    seq(64, k requires 0 <= k < 64 =>
      if k != me && procs[k].status == Sleeping && procs[k].chan == chan then procs[k].(status := Ready) else procs[k])
  }

  ghost function HandedOver(procs: seq<Proc>, me: int): (r: seq<Proc>)
    requires Table(procs)
    ensures Table(r)
  {
    seq(64, k requires 0 <= k < 64 => if procs[k].parent == me then procs[k].(parent := 0) else procs[k])
  }

  ghost function Exited(s: State, status: int): State
    requires Runs(s)
  {
    var t := HandedOver(s.procs[s.cur := s.procs[s.cur].(xstate := status)], s.cur);
    var u := Woken(t, t[s.cur].parent, s.cur);
    SwitchedOut(s.(procs := u, exits := s.exits[s.procs[s.cur].pid := status]), u[s.cur].(status := Zombie))
  }

  ghost predicate ZombieChild(procs: seq<Proc>, p: int, z: int)
    requires Table(procs)
  {
    IsChild(procs, z, p) && procs[z].status == Zombie
  }

  /** The first zombie child of p from slot k on, or -1. */
  ghost function FirstZombie(procs: seq<Proc>, p: int, k: nat): (z: int)
    requires Table(procs) && k <= 64
    ensures if z == -1 then forall j :: k <= j < 64 ==> !ZombieChild(procs, p, j)
            else k <= z < 64 && ZombieChild(procs, p, z) && forall j :: k <= j < z ==> !ZombieChild(procs, p, j)
    decreases 64 - k
  {
    if k == 64 then -1 else if ZombieChild(procs, p, k) then k else FirstZombie(procs, p, k + 1)
  }

  ghost predicate HasChild(procs: seq<Proc>, p: int)
    requires Table(procs)
  {
    exists c :: IsChild(procs, c, p)
  }

  ghost function Pushed(free: seq<nat>, page: nat): seq<nat>
  {
    if page == 0 then free else [page] + free
  }

  /** wait's collection of child z: the slot is freed and both its pages return to the list. */
  ghost function Collected(s: State, z: int): State
    requires Runs(s) && Slot(z)
  {
    var c := s.procs[z];
    s.(procs := s.procs[z := Proc(Free, 0, 0, 0, -1, c.chan, c.xstate, c.waiting)],
       free := Pushed(Pushed(s.free, c.trapframe), c.kstack),
       reaps := s.reaps + [Reaped(c.pid, s.cur, c.xstate)])
  }

  /** One pass of wait's loop: collect a zombie child, fail without children, or sleep. */
  ghost function Waited(s: State, addr: int): State
    requires Runs(s)
  {
    var z := FirstZombie(s.procs, s.cur, 0);
    if z != -1 then Collected(s, z)
    else if !HasChild(s.procs, s.cur) then s
    else SwitchedOut(s, s.procs[s.cur].(chan := s.cur, status := Sleeping, waiting := addr))
  }

  ghost function WaitResult(s: State): int
    requires Runs(s)
  {
    var z := FirstZombie(s.procs, s.cur, 0);
    if z != -1 then s.procs[z].pid else -1
  }

  /** The return from sleep inside wait. */
  ghost function Resumed(s: State): State
    requires Runs(s)
  {
    s.(procs := s.procs[s.cur := s.procs[s.cur].(chan := -1, waiting := -1)])
  }

  /** The first FREE slot from k on, or 64. */
  ghost function FirstFree(procs: seq<Proc>, k: nat): (f: nat)
    requires Table(procs) && k <= 64
    ensures k <= f <= 64 && (f < 64 ==> procs[f].status == Free) && forall j :: k <= j < f ==> procs[j].status != Free
    decreases 64 - k
  {
    if k == 64 || procs[k].status == Free then k else FirstFree(procs, k + 1)
  }

  /** allocproc: no slot; a slot but no page, which still uses up a pid; or a slot with a trapframe. */
  ghost function ProcAllocated(s: State): State
    requires Table(s.procs)
  {
    var k := FirstFree(s.procs, 0);
    if k == 64 then s
    else if s.free == []
    then s.(procs := s.procs[k := s.procs[k].(pid := s.nextpid, trapframe := 0)], nextpid := s.nextpid + 1)
    else s.(procs := s.procs[k := Proc(Allocated, s.nextpid, s.free[0], s.procs[k].kstack, -1, -1, 0, -1)],
            nextpid := s.nextpid + 1, free := s.free[1..])
  }

  /** fork after a successful allocproc of slot k. */
  ghost function ChildBuilt(s: State, k: int): State
    requires Runs(s) && Slot(k)
  {
    if s.free == [] then s.(procs := s.procs[k := s.procs[k].(kstack := 0, status := Free)])
    else
      s.(procs := s.procs[k := s.procs[k].(kstack := s.free[0], parent := s.cur, status := Ready)],
         free := s.free[1..])
  }

  ghost function Forked(s: State): State
    requires Runs(s)
  {
    var k := FirstFree(s.procs, 0);
    if k == 64 || s.free == [] then ProcAllocated(s) else ChildBuilt(ProcAllocated(s), k)
  }

  ghost function ForkResult(s: State): int
    requires Runs(s)
  {
    if FirstFree(s.procs, 0) == 64 || |s.free| < 2 then -1 else s.nextpid
  }

  datatype Event = Dispatch(slot: int) | Yield | Exit(status: int) | Wait(addr: nat) | Resume | Fork

  /** The running process is in user code or at the start of a system call. */
  ghost predicate AtCall(s: State)
  {
    Runs(s) && s.procs[s.cur].waiting < 0
  }

  ghost predicate Step(s: State, e: Event, s': State)
  {
    match e
    case Dispatch(i) => Table(s.procs) && s.cur == -1 && IsNext(s.procs, s.cursor, i) && s' == Dispatched(s, i)
    case Yield => AtCall(s) && s' == Yielded(s)
    case Exit(status) => AtCall(s) && s' == Exited(s, status)
    case Wait(addr) => AtCall(s) && s' == Waited(s, addr)
    case Resume => Runs(s) && !AtCall(s) && s' == Waited(Resumed(s), s.procs[s.cur].waiting)
    case Fork => AtCall(s) && s' == Forked(s)
  }

  /** After userinit: slot 0 runs the first program; two more pages hold its code and stack. */
  ghost function Booted(pages: seq<nat>): State
    requires |pages| >= 4
  {
    State(seq(64, k => if k == 0 then Proc(Ready, 1, pages[0], pages[1], -1, -1, 0, -1)
                       else Proc(Free, 0, 0, 0, -1, -1, 0, -1)),
          2, -1, 0, pages[4..], map[], [])
  }

  // ---------------------------------------------------------------- what every step keeps

  /** Exactly the current process is RUNNING, and FREE slots are clear. */
  ghost predicate Shape(s: State)
  {
    Table(s.procs) && -1 <= s.cur < 64 && Slot(s.cursor) &&
    (forall k :: Slot(k) ==> (s.procs[k].status == Running <==> k == s.cur)) &&
    (forall k :: Slot(k) ==> s.procs[k].status != Allocated) &&
    (forall k :: Slot(k) && s.procs[k].waiting >= 0 ==> s.procs[k].status in {Sleeping, Ready, Running}) &&
    (forall k :: Slot(k) && s.procs[k].status == Free ==> s.procs[k].parent == -1 && s.procs[k].kstack == 0)
  }

  /** The live processes form a tree rooted at slot 0 along which pids grow. */
  ghost predicate Forest(s: State)
    requires Table(s.procs)
  {
    Live(s.procs, 0) && s.procs[0].pid == 1 && s.procs[0].parent == -1 &&
    (forall k :: Live(s.procs, k) ==> 1 <= s.procs[k].pid < s.nextpid) &&
    (forall j, k :: Live(s.procs, j) && Live(s.procs, k) && s.procs[j].pid == s.procs[k].pid ==> j == k) &&
    (forall k {:trigger HasParent(s.procs, k)} :: Live(s.procs, k) && k != 0 ==> HasParent(s.procs, k))
  }

  ghost predicate HasParent(procs: seq<Proc>, k: int)
    requires Table(procs) && Slot(k)
  {
    var p := procs[k].parent;
    Live(procs, p) && procs[p].pid < procs[k].pid && (procs[p].status == Zombie ==> p == 0)
  }

  ghost predicate LivingChild(procs: seq<Proc>, p: int, c: int)
    requires Table(procs)
  {
    IsChild(procs, c, p) && Live(procs, c) && procs[c].status != Zombie
  }

  /** A sleeper waits on itself for a child that has not exited, and, except slot 0, has no zombie child. */
  ghost predicate Sleepers(s: State)
    requires Table(s.procs)
  {
    forall k {:trigger Asleep(s.procs, k)} :: Slot(k) && s.procs[k].status == Sleeping ==> Asleep(s.procs, k)
  }

  ghost predicate Asleep(procs: seq<Proc>, k: int)
    requires Table(procs) && Slot(k)
  {
    procs[k].chan == k && procs[k].waiting >= 0 &&
    (exists c :: LivingChild(procs, k, c)) &&
    (k != 0 ==> forall z :: !ZombieChild(procs, k, z))
  }

  ghost predicate Owns(p: Proc, page: nat)
  {
    page == p.trapframe || page == p.kstack
  }

  /** No page is at once free, reserved, or a page of a live slot, nor a page of two live slots. */
  ghost predicate Pages(s: State, reserved: set<nat>)
    requires Table(s.procs)
  {
    Distinct(s.free) && (forall x :: x in s.free ==> x != 0 && x !in reserved) &&
    (forall k :: Live(s.procs, k) ==> s.procs[k].trapframe != s.procs[k].kstack) &&
    (forall k, x :: Live(s.procs, k) && Owns(s.procs[k], x) ==> x != 0 && x !in reserved && x !in s.free) &&
    (forall j, k, x :: Live(s.procs, j) && Live(s.procs, k) && Owns(s.procs[j], x) && Owns(s.procs[k], x) ==> j == k)
  }

  /** Exits are recorded for zombies and collected pids only; no pid is collected twice. */
  ghost predicate History(s: State)
    requires Table(s.procs)
  {
    (forall p :: p in s.exits ==> p < s.nextpid) &&
    (forall k :: Live(s.procs, k) ==> (s.procs[k].pid in s.exits <==> s.procs[k].status == Zombie)) &&
    (forall k :: Live(s.procs, k) && s.procs[k].status == Zombie ==> s.exits[s.procs[k].pid] == s.procs[k].xstate) &&
    (forall i :: 0 <= i < |s.reaps| ==> s.reaps[i].pid in s.exits && s.reaps[i].status == s.exits[s.reaps[i].pid]) &&
    (forall i, k :: 0 <= i < |s.reaps| && Live(s.procs, k) ==> s.reaps[i].pid != s.procs[k].pid) &&
    (forall i, j :: 0 <= i < j < |s.reaps| ==> s.reaps[i].pid != s.reaps[j].pid)
  }

  ghost predicate Inv(s: State, reserved: set<nat>)
  {
    Shape(s) && Forest(s) && Sleepers(s) && Pages(s, reserved) && History(s)
  }
}

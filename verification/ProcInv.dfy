/**
 Every step of the process state machine keeps the invariant: the shape of the table,
 the process tree, the condition on sleepers, page ownership, and the history of exits.
 */
module ProcInv {
  import opened Kalloc
  import opened Sched

  // ---------------------------------------------------------------- steps that only reschedule

  /** The two tables differ at most in who is ready, running or asleep. */
  ghost predicate Alike(procs: seq<Proc>, procs': seq<Proc>)
  {
    Table(procs) && Table(procs') &&
    forall k :: Slot(k) ==> SameRecord(procs[k], procs'[k])
  }

  ghost predicate SameRecord(p: Proc, q: Proc)
  {
    p.pid == q.pid && p.trapframe == q.trapframe && p.kstack == q.kstack &&
    p.parent == q.parent && p.xstate == q.xstate &&
    (p.status == Free <==> q.status == Free) && (p.status == Zombie <==> q.status == Zombie)
  }

  /** Same everything but the schedule. */
  ghost predicate Rescheduled(s: State, s': State)
  {
    Alike(s.procs, s'.procs) && s'.nextpid == s.nextpid && s'.free == s.free &&
    s'.exits == s.exits && s'.reaps == s.reaps
  }

  lemma RescheduledForest(s: State, s': State)
    requires Rescheduled(s, s') && Forest(s)
    ensures Forest(s')
  {
    assert forall k :: Slot(k) ==> SameRecord(s.procs[k], s'.procs[k]);
    forall k | Live(s'.procs, k) && k != 0
      ensures HasParent(s'.procs, k)
    {
      assert HasParent(s.procs, k);
    }
  }

  lemma RescheduledPages(s: State, s': State, reserved: set<nat>)
    requires Rescheduled(s, s') && Pages(s, reserved)
    ensures Pages(s', reserved)
  {
    assert forall k :: Slot(k) ==> SameRecord(s.procs[k], s'.procs[k]);
    assert forall k :: Live(s'.procs, k) ==> Live(s.procs, k);
    assert forall k, x :: Slot(k) && Owns(s'.procs[k], x) ==> Owns(s.procs[k], x);
  }

  lemma RescheduledHistory(s: State, s': State)
    requires Rescheduled(s, s') && History(s)
    ensures History(s')
  {
    assert forall k :: Slot(k) ==> SameRecord(s.procs[k], s'.procs[k]);
    assert forall k :: Live(s'.procs, k) ==> Live(s.procs, k);
  }

  /** A sleeper stays justified while it keeps its living children and gains no zombie one. */
  lemma AsleepKept(procs: seq<Proc>, procs': seq<Proc>, k: int)
    requires Table(procs) && Table(procs') && Slot(k) && Asleep(procs, k)
    requires procs'[k].chan == procs[k].chan && procs'[k].waiting == procs[k].waiting
    requires forall c :: LivingChild(procs, k, c) ==> LivingChild(procs', k, c)
    requires k != 0 ==> forall z :: ZombieChild(procs', k, z) ==> ZombieChild(procs, k, z)
    ensures Asleep(procs', k)
  {
    var c :| LivingChild(procs, k, c);
    assert LivingChild(procs', k, c);
  }

  lemma AlikeAsleep(procs: seq<Proc>, procs': seq<Proc>, k: int)
    requires Alike(procs, procs') && Slot(k) && Asleep(procs, k)
    requires procs'[k].chan == procs[k].chan && procs'[k].waiting == procs[k].waiting
    ensures Asleep(procs', k)
  {
    assert forall c :: Slot(c) ==> SameRecord(procs[c], procs'[c]);
    AsleepKept(procs, procs', k);
  }

  /** The common part of a dispatch, a yield, a sleep and a return from sleep. */
  lemma RescheduledInv(s: State, s': State, reserved: set<nat>)
    requires Inv(s, reserved) && Rescheduled(s, s') && Shape(s')
    requires forall k :: Slot(k) && s'.procs[k].status == Sleeping ==>
      Asleep(s'.procs, k) || (s.procs[k].status == Sleeping && s'.procs[k] == s.procs[k])
    ensures Inv(s', reserved)
  {
    RescheduledForest(s, s');
    RescheduledPages(s, s', reserved);
    RescheduledHistory(s, s');
    hide Forest, Pages, History, Rescheduled, Alike, Asleep;
    forall k | Slot(k) && s'.procs[k].status == Sleeping
      ensures Asleep(s'.procs, k)
    {
      if !Asleep(s'.procs, k) {
        assert Asleep(s.procs, k);
        assert Alike(s.procs, s'.procs) by { RescheduledAlike(s, s'); }
        AlikeAsleep(s.procs, s'.procs, k);
      }
    }
  }

  lemma RescheduledAlike(s: State, s': State)
    requires Rescheduled(s, s')
    ensures Alike(s.procs, s'.procs)
  {}

  lemma DispatchKeeps(s: State, i: int, reserved: set<nat>)
    requires Inv(s, reserved) && s.cur == -1 && IsNext(s.procs, s.cursor, i)
    ensures Inv(Dispatched(s, i), reserved)
  {
    hide Forest, Sleepers, Pages, History;
    RescheduledInv(s, Dispatched(s, i), reserved);
  }

  lemma YieldKeeps(s: State, reserved: set<nat>)
    requires Inv(s, reserved) && AtCall(s)
    ensures Inv(Yielded(s), reserved)
  {
    hide Forest, Sleepers, Pages, History;
    RescheduledInv(s, Yielded(s), reserved);
  }

  lemma ResumeKeeps(s: State, reserved: set<nat>)
    requires Inv(s, reserved) && Runs(s)
    ensures Inv(Resumed(s), reserved) && AtCall(Resumed(s))
  {
    hide Forest, Sleepers, Pages, History;
    RescheduledInv(s, Resumed(s), reserved);
  }

  lemma SleepKeeps(s: State, addr: nat, reserved: set<nat>)
    requires Inv(s, reserved) && AtCall(s) && HasChild(s.procs, s.cur) && forall z :: !ZombieChild(s.procs, s.cur, z)
    ensures Inv(SwitchedOut(s, s.procs[s.cur].(chan := s.cur, status := Sleeping, waiting := addr)), reserved)
  {
    hide Forest, Sleepers, Pages, History;
    var p := s.procs[s.cur].(chan := s.cur, status := Sleeping, waiting := addr);
    var s' := SwitchedOut(s, p);
    var c :| IsChild(s.procs, c, s.cur);
    ChildIsLive(s, c);
    NotOwnParent(s, reserved);
    assert !ZombieChild(s.procs, s.cur, c);
    assert LivingChild(s'.procs, s.cur, c);
    forall z
      ensures !ZombieChild(s'.procs, s.cur, z)
    {
      assert !ZombieChild(s.procs, s.cur, z);
    }
    RescheduledInv(s, s', reserved);
  }

  /** A slot with a parent is live. */
  lemma ChildIsLive(s: State, c: int)
    requires Shape(s) && Slot(c) && s.procs[c].parent != -1
    ensures Live(s.procs, c)
  {}

  lemma NotOwnParent(s: State, reserved: set<nat>)
    requires Inv(s, reserved) && Runs(s)
    ensures s.procs[s.cur].parent != s.cur && (s.cur != 0 ==> HasParent(s.procs, s.cur))
  {
    if s.cur != 0 {
      assert HasParent(s.procs, s.cur);
    }
  }

  // ---------------------------------------------------------------- exit

  ghost function AfterExit(p: Proc, me: int, chan: int): Proc
  {
    var q := if p.parent == me then p.(parent := 0) else p;
    if q.status == Sleeping && q.chan == chan then q.(status := Ready) else q
  }

  /** exit, slot by slot. */
  ghost predicate ExitOf(s: State, status: int, s': State)
    requires Runs(s)
  {
    Table(s'.procs) && s'.cur == -1 && Slot(s'.cursor) && s'.cursor == (s.cur + 1) % 64 &&
    s'.nextpid == s.nextpid && s'.free == s.free && s'.reaps == s.reaps &&
    s'.exits == s.exits[s.procs[s.cur].pid := status] &&
    s'.procs[s.cur] == s.procs[s.cur].(xstate := status, status := Zombie) &&
    (forall k :: Slot(k) && k != s.cur ==> s'.procs[k] == AfterExit(s.procs[k], s.cur, s.procs[s.cur].parent))
  }

  lemma ExitIs(s: State, status: int)
    requires Runs(s) && s.procs[s.cur].parent != s.cur
    ensures ExitOf(s, status, Exited(s, status))
  {
    var me := s.cur;
    var t := HandedOver(s.procs[me := s.procs[me].(xstate := status)], me);
    var u := Woken(t, t[me].parent, me);
    assert t[me] == s.procs[me].(xstate := status) && u[me] == t[me];
    forall k | Slot(k) && k != me
      ensures u[k] == AfterExit(s.procs[k], me, s.procs[me].parent)
    {}
  }

  /** The same without names: what exit does to each slot. */
  lemma ExitedIs(s: State, status: int)
    requires Runs(s) && s.procs[s.cur].parent != s.cur
    ensures var s' := Exited(s, status); var me := s.procs[s.cur];
      |s'.procs| == 64 && s'.cur == -1 && s'.cursor == (s.cur + 1) % 64 && s'.free == s.free &&
      s'.nextpid == s.nextpid && s'.reaps == s.reaps && s'.exits == s.exits[me.pid := status] &&
      s'.procs[s.cur] == me.(xstate := status, status := Zombie) &&
      forall k :: 0 <= k < 64 && k != s.cur ==>
        var p, p' := s.procs[k], s'.procs[k];
        p' == p.(parent := p'.parent, status := p'.status) &&
        p'.parent == (if p.parent == s.cur then 0 else p.parent) &&
        p'.status == (if p.status == Sleeping && p.chan == me.parent then Ready else p.status)
  {
    hide Exited;
    ExitIs(s, status);
  }

  lemma ExitShape(s: State, status: int, s': State)
    requires Shape(s) && AtCall(s) && ExitOf(s, status, s')
    ensures Shape(s')
  {}

  lemma ExitForest(s: State, status: int, s': State)
    requires Shape(s) && Forest(s) && AtCall(s) && ExitOf(s, status, s')
    ensures Forest(s')
  {
    ExitRecords(s, status, s');
    hide ExitOf, Shape;
    forall k | Live(s'.procs, k) && k != 0
      ensures HasParent(s'.procs, k)
    {
      assert HasParent(s.procs, k);
      assert Live(s.procs, 0);
    }
  }

  /** exit keeps every slot's pid and whether it is live, and moves the caller's children to slot 0. */
  lemma ExitRecords(s: State, status: int, s': State)
    requires Shape(s) && AtCall(s) && ExitOf(s, status, s')
    ensures Table(s'.procs) && s'.nextpid == s.nextpid && s.procs[s.cur].status == Running
    ensures forall k :: Slot(k) ==> (Live(s'.procs, k) <==> Live(s.procs, k)) && s'.procs[k].pid == s.procs[k].pid
    ensures forall k :: Slot(k) && k != s.cur ==> (s'.procs[k].status == Zombie <==> s.procs[k].status == Zombie)
    ensures forall k ::
      Slot(k) ==> s'.procs[k].parent == if k != s.cur && s.procs[k].parent == s.cur then 0 else s.procs[k].parent
  {}

  lemma ExitSleepers(s: State, status: int, s': State)
    requires Shape(s) && Sleepers(s) && AtCall(s) && ExitOf(s, status, s') && s.procs[s.cur].parent != s.cur
    ensures Sleepers(s')
  {
    forall k | Slot(k) && s'.procs[k].status == Sleeping
      ensures Asleep(s'.procs, k)
    {
      assert Asleep(s.procs, k);
      assert k != s.procs[s.cur].parent;
      forall c | LivingChild(s.procs, k, c)
        ensures LivingChild(s'.procs, k, c)
      {
        assert c != s.cur;
      }
      AsleepKept(s.procs, s'.procs, k);
    }
  }

  lemma ExitPages(s: State, status: int, s': State, reserved: set<nat>)
    requires Shape(s) && Pages(s, reserved) && AtCall(s) && ExitOf(s, status, s')
    ensures Pages(s', reserved)
  {
    forall k | Slot(k)
      ensures Live(s'.procs, k) <==> Live(s.procs, k)
      ensures s'.procs[k].trapframe == s.procs[k].trapframe && s'.procs[k].kstack == s.procs[k].kstack
    {}
    PagesKept(s, s', reserved);
  }

  /** Ownership depends only on which slots are live and what pages they name. */
  lemma PagesKept(s: State, s': State, reserved: set<nat>)
    requires Table(s.procs) && Table(s'.procs) && Pages(s, reserved) && s'.free == s.free
    requires forall k :: Live(s'.procs, k) ==> Live(s.procs, k)
    requires forall k ::
      Slot(k) ==> s'.procs[k].trapframe == s.procs[k].trapframe && s'.procs[k].kstack == s.procs[k].kstack
    ensures Pages(s', reserved)
  {
    assert forall k, x :: Slot(k) && Owns(s'.procs[k], x) ==> Owns(s.procs[k], x);
  }

  lemma ExitHistory(s: State, status: int, s': State)
    requires Shape(s) && Forest(s) && History(s) && AtCall(s) && ExitOf(s, status, s')
    ensures History(s')
  {
    assert Live(s.procs, s.cur);
    forall k | Slot(k)
      ensures Live(s'.procs, k) <==> Live(s.procs, k)
      ensures s'.procs[k].pid == s.procs[k].pid
      ensures k != s.cur ==>
        (s'.procs[k].status == Zombie <==> s.procs[k].status == Zombie) && s'.procs[k].xstate == s.procs[k].xstate
    {}
  }

  lemma ExitKeeps(s: State, status: int, reserved: set<nat>)
    requires Inv(s, reserved) && AtCall(s)
    ensures Inv(Exited(s, status), reserved)
  {
    hide Shape, Forest, Sleepers, Pages, History, Exited, ExitOf;
    var s' := Exited(s, status);
    NotOwnParent(s, reserved);
    ExitIs(s, status);
    ExitShape(s, status, s');
    ExitForest(s, status, s');
    ExitSleepers(s, status, s');
    ExitPages(s, status, s', reserved);
    ExitHistory(s, status, s');
  }

  // ---------------------------------------------------------------- collecting a child

  /** A collected child is not slot 0 and has no children left. */
  lemma ZombieIsLeaf(s: State, z: int, reserved: set<nat>)
    requires Inv(s, reserved) && Runs(s) && ZombieChild(s.procs, s.cur, z)
    ensures z != 0 && z != s.cur && Live(s.procs, z) && forall k :: Slot(k) ==> s.procs[k].parent != z
  {
    forall k | Slot(k)
      ensures s.procs[k].parent != z
    {
      if Live(s.procs, k) && k != 0 {
        assert HasParent(s.procs, k);
      }
    }
  }

  lemma CollectForest(s: State, z: int, s': State)
    requires Shape(s) && Forest(s) && Runs(s) && z != 0 && Slot(z) && (forall k :: Slot(k) ==> s.procs[k].parent != z)
    requires s' == Collected(s, z)
    ensures Forest(s')
  {
    forall k | Live(s'.procs, k) && k != 0
      ensures HasParent(s'.procs, k)
    {
      assert HasParent(s.procs, k);
    }
  }

  lemma CollectSleepers(s: State, z: int, s': State)
    requires Shape(s) && Sleepers(s) && Runs(s) && ZombieChild(s.procs, s.cur, z) && s' == Collected(s, z)
    ensures Sleepers(s')
  {
    forall k | Slot(k) && s'.procs[k].status == Sleeping
      ensures Asleep(s'.procs, k)
    {
      assert Asleep(s.procs, k);
      AsleepKept(s.procs, s'.procs, k);
    }
  }

  lemma DistinctPushed(free: seq<nat>, page: nat)
    requires Distinct(free) && page !in free
    ensures Distinct(Pushed(free, page))
    ensures forall x :: x in Pushed(free, page) <==> x in free || (x == page && page != 0)
  {
    if page != 0 {
      var f := [page] + free;
      assert forall x :: x in f <==> x == page || x in free;
    }
  }

  lemma CollectPages(s: State, z: int, s': State, reserved: set<nat>)
    requires Table(s.procs) && Pages(s, reserved) && Runs(s) && Live(s.procs, z) && s' == Collected(s, z)
    ensures Pages(s', reserved)
  {
    var c := s.procs[z];
    assert Owns(c, c.trapframe) && Owns(c, c.kstack);
    DistinctPushed(s.free, c.trapframe);
    DistinctPushed(Pushed(s.free, c.trapframe), c.kstack);
    hide Pushed, Distinct;
    forall k | Live(s'.procs, k)
      ensures k != z && Live(s.procs, k) && s'.procs[k] == s.procs[k]
    {}
    forall k, x | Live(s'.procs, k) && Owns(s'.procs[k], x)
      ensures x !in s'.free
    {
      assert Owns(s.procs[k], x) && k != z;
    }
  }

  lemma CollectHistory(s: State, z: int, s': State)
    requires Shape(s) && Forest(s) && History(s) && Runs(s) && ZombieChild(s.procs, s.cur, z) && s' == Collected(s, z)
    ensures History(s')
  {
    assert Live(s.procs, z);
    forall k | Live(s'.procs, k)
      ensures k != z && Live(s.procs, k) && s'.procs[k] == s.procs[k] && s.procs[k].pid != s.procs[z].pid
    {}
  }

  lemma CollectKeeps(s: State, z: int, reserved: set<nat>)
    requires Inv(s, reserved) && AtCall(s) && ZombieChild(s.procs, s.cur, z)
    ensures Inv(Collected(s, z), reserved) && Table(Collected(s, z).procs)
  {
    ZombieIsLeaf(s, z, reserved);
    hide Forest, Sleepers, Pages, History;
    var s' := Collected(s, z);
    CollectForest(s, z, s');
    CollectSleepers(s, z, s');
    CollectPages(s, z, s', reserved);
    CollectHistory(s, z, s');
  }

  lemma WaitKeeps(s: State, addr: nat, reserved: set<nat>)
    requires Inv(s, reserved) && AtCall(s)
    ensures Inv(Waited(s, addr), reserved)
  {
    hide Shape, Forest, Sleepers, Pages, History, Collected, SwitchedOut;
    var z := FirstZombie(s.procs, s.cur, 0);
    if z != -1 {
      CollectKeeps(s, z, reserved);
    } else if HasChild(s.procs, s.cur) {
      assert forall j :: !ZombieChild(s.procs, s.cur, j);
      SleepKeeps(s, addr, reserved);
    }
  }

  // ---------------------------------------------------------------- fork

  /** A FREE slot may change its record as long as it stays clear, and pages may leave the list. */
  ghost predicate FreeTouched(s: State, k: int, r: Proc, n: nat, s': State)
  {
    Table(s.procs) && Slot(k) && n <= |s.free| && s.procs[k].status == Free &&
    r.status == Free && r.parent == -1 && r.kstack == 0 && r.waiting < 0 &&
    s' == s.(procs := s.procs[k := r], nextpid := s.nextpid + 1, free := s.free[n..])
  }

  lemma FreeTouchedOthers(s: State, k: int, r: Proc, n: nat, s': State)
    requires FreeTouched(s, k, r, n, s')
    ensures forall j :: Live(s'.procs, j) ==> j != k && Live(s.procs, j) && s'.procs[j] == s.procs[j]
    ensures forall j :: Live(s.procs, j) ==> j != k && s'.procs[j] == s.procs[j]
    ensures Table(s'.procs) && n <= |s.free| && s'.free == s.free[n..]
  {}

  lemma FreeTouchedTree(s: State, k: int, r: Proc, n: nat, s': State)
    requires Shape(s) && Forest(s) && Sleepers(s) && FreeTouched(s, k, r, n, s')
    ensures Forest(s') && Sleepers(s')
  {
    FreeTouchedOthers(s, k, r, n, s');
    forall j | Live(s'.procs, j) && j != 0
      ensures HasParent(s'.procs, j)
    {
      assert HasParent(s.procs, j);
    }
    forall j | Slot(j) && s'.procs[j].status == Sleeping
      ensures Asleep(s'.procs, j)
    {
      assert Asleep(s.procs, j);
      AsleepKept(s.procs, s'.procs, j);
    }
  }

  lemma FreeTouchedPages(s: State, k: int, r: Proc, n: nat, s': State, reserved: set<nat>)
    requires Table(s.procs) && Pages(s, reserved) && FreeTouched(s, k, r, n, s')
    ensures Pages(s', reserved)
  {
    hide FreeTouched, Owns;
    FreeTouchedOthers(s, k, r, n, s');
    TailOf(s.free, n);
    forall j, x | Live(s'.procs, j) && Owns(s'.procs[j], x)
      ensures Live(s.procs, j) && Owns(s.procs[j], x) && x != 0 && x !in reserved && x !in s'.free
    {
      assert Owns(s.procs[j], x);
    }
    assert Distinct(s'.free);
    assert forall x :: x in s'.free ==> x != 0 && x !in reserved;
    assert forall j :: Live(s'.procs, j) ==> s'.procs[j].trapframe != s'.procs[j].kstack;
    assert forall i, j, x ::
      Live(s'.procs, i) && Live(s'.procs, j) && Owns(s'.procs[i], x) && Owns(s'.procs[j], x) ==> i == j;
  }

  /** What is left of a duplicate-free list when its first n pages are taken. */
  lemma TailOf(free: seq<nat>, n: nat)
    requires Distinct(free) && n <= |free|
    ensures Distinct(free[n..]) && forall x :: x in free[n..] ==> x in free
  {}

  lemma FreeTouchedHistory(s: State, k: int, r: Proc, n: nat, s': State)
    requires Table(s.procs) && History(s) && FreeTouched(s, k, r, n, s')
    ensures History(s')
  {
    FreeTouchedOthers(s, k, r, n, s');
  }

  lemma FreeTouchedKeeps(s: State, k: int, r: Proc, n: nat, s': State, reserved: set<nat>)
    requires Inv(s, reserved) && FreeTouched(s, k, r, n, s')
    ensures Inv(s', reserved)
  {
    FreeTouchedTree(s, k, r, n, s');
    FreeTouchedPages(s, k, r, n, s', reserved);
    FreeTouchedHistory(s, k, r, n, s');
    hide Forest, Sleepers, Pages, History;
  }

  /** A successful fork: slot k becomes a ready child of the caller with two pages of its own. */
  ghost function NewChild(s: State): Proc
    requires |s.free| >= 2
  {
    Proc(Ready, s.nextpid, s.free[0], s.free[1], s.cur, -1, 0, -1)
  }

  ghost predicate ChildAdded(s: State, k: int, s': State)
  {
    Runs(s) && Slot(k) && |s.free| >= 2 && s.procs[k].status == Free &&
    s' == s.(procs := s.procs[k := NewChild(s)], nextpid := s.nextpid + 1, free := s.free[2..])
  }

  /** fork written out: what it returns, and the table, the pid counter and the free pages it leaves. */
  lemma ForkedIs(s: State)
    requires Shape(s) && Runs(s)
    ensures var s' := Forked(s);
      s'.cur == s.cur && s'.cursor == s.cursor && s'.exits == s.exits && s'.reaps == s.reaps
    ensures ForkResult(s) == -1 <==>
      (forall k :: 0 <= k < 64 ==> s.procs[k].status != Free) || |s.free| < 2
    ensures ForkResult(s) == -1 ==>
      |Forked(s).procs| == 64 &&
      forall k :: 0 <= k < 64 && s.procs[k].status != Free ==> Forked(s).procs[k] == s.procs[k]
    ensures ForkResult(s) != -1 ==> ForkResult(s) == s.nextpid && Forked(s).nextpid == s.nextpid + 1
    ensures ForkResult(s) != -1 ==>
      Forked(s).free == s.free[2..] &&
      exists k :: 0 <= k < 64 && s.procs[k].status == Free && (forall j :: 0 <= j < k ==> s.procs[j].status != Free) &&
        Forked(s).procs == s.procs[k := Proc(Ready, s.nextpid, s.free[0], s.free[1], s.cur, -1, 0, -1)]
  {
    hide FirstFree;
    ForkCases(s);
    var k := FirstFree(s.procs, 0);
    if ForkResult(s) != -1 {
      assert ChildAdded(s, k, Forked(s));
      assert s.procs[k].status == Free;
    }
  }

  /** wait written out, for each of its three outcomes. */
  lemma WaitedIs(s: State, addr: int)
    requires Runs(s)
    ensures var z := FirstZombie(s.procs, s.cur, 0); var s' := Waited(s, addr);
      (z != -1 ==>
        s.procs[z].parent == s.cur && s.procs[z].status == Zombie && WaitResult(s) == s.procs[z].pid &&
        s'.procs == s.procs[z := s.procs[z].(status := Free, pid := 0, trapframe := 0, kstack := 0, parent := -1)] &&
        s'.cur == s.cur && s'.reaps == s.reaps + [Reaped(s.procs[z].pid, s.cur, s.procs[z].xstate)]) &&
      (z == -1 && (forall k :: 0 <= k < 64 ==> s.procs[k].parent != s.cur) ==> s' == s && WaitResult(s) == -1) &&
      (z == -1 && (exists k :: 0 <= k < 64 && s.procs[k].parent == s.cur) ==>
        s'.procs == s.procs[s.cur := s.procs[s.cur].(chan := s.cur, status := Sleeping, waiting := addr)] &&
        s'.cur == -1 && s'.reaps == s.reaps)
    ensures HasChild(s.procs, s.cur) <==> exists k :: 0 <= k < 64 && s.procs[k].parent == s.cur
    ensures var z := FirstZombie(s.procs, s.cur, 0);
      forall k :: 0 <= k < (if z == -1 then 64 else z) ==>
        !(s.procs[k].parent == s.cur && s.procs[k].status == Zombie)
  {
    hide FirstZombie;
    assert forall k :: 0 <= k < 64 ==>
      (ZombieChild(s.procs, s.cur, k) <==> s.procs[k].parent == s.cur && s.procs[k].status == Zombie);
    assert forall k :: IsChild(s.procs, k, s.cur) <==> 0 <= k < 64 && s.procs[k].parent == s.cur;
    if exists k :: 0 <= k < 64 && s.procs[k].parent == s.cur {
      var k :| 0 <= k < 64 && s.procs[k].parent == s.cur;
      assert IsChild(s.procs, k, s.cur);
    }
  }

  lemma ForkCases(s: State)
    requires Shape(s) && Runs(s)
    ensures var k := FirstFree(s.procs, 0);
      if k == 64 then Forked(s) == s
      else if |s.free| < 2 then exists r, n :: FreeTouched(s, k, r, n, Forked(s))
      else ChildAdded(s, k, Forked(s))
  {
    var k := FirstFree(s.procs, 0);
    if k < 64 {
      if s.free == [] {
        assert s.free[0..] == s.free;
        assert FreeTouched(s, k, s.procs[k].(pid := s.nextpid, trapframe := 0), 0, Forked(s));
      } else {
        var a := ProcAllocated(s);
        assert a.procs[k := ChildBuilt(a, k).procs[k]] == s.procs[k := ChildBuilt(a, k).procs[k]];
        if |s.free| == 1 {
          assert FreeTouched(s, k, Proc(Free, s.nextpid, s.free[0], 0, -1, -1, 0, -1), 1, Forked(s));
        } else {
          assert s.free[1..][1..] == s.free[2..];
        }
      }
    }
  }

  lemma ChildForest(s: State, k: int, s': State)
    requires Shape(s) && Forest(s) && ChildAdded(s, k, s')
    ensures Forest(s')
  {
    forall j | Live(s'.procs, j) && j != k
      ensures Live(s.procs, j) && s'.procs[j] == s.procs[j]
    {}
    forall j | Live(s'.procs, j) && j != 0
      ensures HasParent(s'.procs, j)
    {
      if j != k {
        assert HasParent(s.procs, j);
      } else {
        assert Live(s.procs, s.cur) && s'.procs[s.cur] == s.procs[s.cur];
      }
    }
  }

  lemma ChildSleepers(s: State, k: int, s': State)
    requires Shape(s) && Sleepers(s) && ChildAdded(s, k, s')
    ensures Sleepers(s')
  {
    forall j | Slot(j) && s'.procs[j].status == Sleeping
      ensures Asleep(s'.procs, j)
    {
      assert Asleep(s.procs, j);
      AsleepKept(s.procs, s'.procs, j);
    }
  }

  /** The two pages taken for the child were free, and are not free any more. */
  lemma TwoTaken(free: seq<nat>)
    requires Distinct(free) && |free| >= 2
    ensures free[0] in free && free[1] in free && free[0] != free[1] && Distinct(free[2..])
    ensures forall x :: x in free[2..] ==> x in free
    ensures free[0] !in free[2..] && free[1] !in free[2..]
  {
    forall x | x in free[2..]
      ensures x in free && x != free[0] && x != free[1]
    {
      var i :| 0 <= i < |free[2..]| && free[2..][i] == x;
      assert x == free[i + 2];
    }
  }

  lemma ChildPages(s: State, k: int, s': State, reserved: set<nat>)
    requires Table(s.procs) && Pages(s, reserved) && ChildAdded(s, k, s')
    ensures Pages(s', reserved)
  {
    TwoTaken(s.free);
    var c := NewChild(s);
    assert s'.procs[k] == c && c.trapframe == s.free[0] && c.kstack == s.free[1];
    assert forall x :: Owns(c, x) <==> x == s.free[0] || x == s.free[1];
    forall j | Live(s'.procs, j) && j != k
      ensures Live(s.procs, j) && s'.procs[j] == s.procs[j]
    {}
    hide Distinct, Owns, ChildAdded, NewChild;
    forall j, x | Live(s'.procs, j) && Owns(s'.procs[j], x)
      ensures x != 0 && x !in reserved && x !in s'.free
      ensures j == k <==> x in s.free
    {
      if j != k {
        assert Owns(s.procs[j], x);
      }
    }
    forall i, j, x | Live(s'.procs, i) && Live(s'.procs, j) && Owns(s'.procs[i], x) && Owns(s'.procs[j], x)
      ensures i == j
    {
      if i != k && j != k {
        assert Owns(s.procs[i], x) && Owns(s.procs[j], x);
      }
    }
  }

  lemma ChildHistory(s: State, k: int, s': State)
    requires Shape(s) && Forest(s) && History(s) && ChildAdded(s, k, s')
    ensures History(s')
  {
    forall j | Live(s'.procs, j) && j != k
      ensures Live(s.procs, j) && s'.procs[j] == s.procs[j]
    {}
  }

  lemma ChildShape(s: State, k: int, s': State)
    requires Shape(s) && ChildAdded(s, k, s')
    ensures Shape(s')
  {}

  lemma ForkKeeps(s: State, reserved: set<nat>)
    requires Inv(s, reserved) && AtCall(s)
    ensures Inv(Forked(s), reserved)
  {
    hide Shape, Forest, Sleepers, Pages, History, Forked, FreeTouched, ChildAdded;
    var k, s' := FirstFree(s.procs, 0), Forked(s);
    ForkCases(s);
    if k < 64 && |s.free| < 2 {
      var r, n :| FreeTouched(s, k, r, n, s');
      FreeTouchedKeeps(s, k, r, n, s', reserved);
    } else if k < 64 {
      ChildShape(s, k, s');
      ChildForest(s, k, s');
      ChildSleepers(s, k, s');
      ChildPages(s, k, s', reserved);
      ChildHistory(s, k, s');
    }
  }

  // ---------------------------------------------------------------- every run

  lemma StepKeeps(s: State, e: Event, s': State, reserved: set<nat>)
    requires Inv(s, reserved) && Step(s, e, s')
    ensures Inv(s', reserved)
  {
    hide Shape, Forest, Sleepers, Pages, History, Dispatched, Yielded, Exited, Waited, Resumed, Forked;
    match e
    case Dispatch(i) => DispatchKeeps(s, i, reserved);
    case Yield => YieldKeeps(s, reserved);
    case Exit(status) => ExitKeeps(s, status, reserved);
    case Wait(addr) => WaitKeeps(s, addr, reserved);
    case Resume =>
      ResumeKeeps(s, reserved);
      WaitKeeps(Resumed(s), s.procs[s.cur].waiting, reserved);
    case Fork => ForkKeeps(s, reserved);
  }

  /** The pages userinit starts from: distinct free pages, none reserved. */
  lemma BootedInv(pages: seq<nat>, reserved: set<nat>)
    requires |pages| >= 4 && Distinct(pages) && forall x :: x in pages ==> x != 0 && x !in reserved
    ensures Inv(Booted(pages), reserved + {pages[2], pages[3]})
  {
    var s := Booted(pages);
    assert forall k :: Live(s.procs, k) ==> k == 0;
    assert Shape(s) && Forest(s) && Sleepers(s) && History(s);
    hide Shape, Forest, Sleepers, History;
    forall x | x in s.free
      ensures x in pages && x !in pages[..4]
    {
      var i :| 0 <= i < |s.free| && s.free[i] == x;
      assert x == pages[i + 4];
    }
    assert pages[0] in pages[..4] && pages[1] in pages[..4] && pages[2] in pages[..4] && pages[3] in pages[..4];
    assert pages[0] != pages[1] && pages[0] in pages && pages[1] in pages;
    forall i, j | 0 <= i < j < |s.free|
      ensures s.free[i] != s.free[j]
    {
      assert pages[i + 4] != pages[j + 4];
    }
    assert Distinct(s.free);
    hide Distinct;
    assert forall k, x :: Live(s.procs, k) && Owns(s.procs[k], x) ==> x == pages[0] || x == pages[1];
  }

  /** A run: states[i + 1] follows states[i] by events[i]. */
  ghost predicate Segment(states: seq<State>, events: seq<Event>)
  {
    |states| == |events| + 1 && forall i :: 0 <= i < |events| ==> Step(states[i], events[i], states[i + 1])
  }

  /** The invariant holds in every state of every run. */
  lemma {:induction false} RunKeeps(states: seq<State>, events: seq<Event>, reserved: set<nat>, i: nat)
    requires Segment(states, events) && i < |states| && Inv(states[0], reserved)
    ensures Inv(states[i], reserved)
  {
    hide Inv, Step;
    if i > 0 {
      RunKeeps(states, events, reserved, i - 1);
      StepKeeps(states[i - 1], events[i - 1], states[i], reserved);
    }
  }
}

/**
 What holds over whole runs of the process table: no process sleeps in vain, the scheduler
 is fair, the tree has one root, and every exit is reported at most once, to the parent.
 */
module ProcRuns {
  import opened Kalloc
  import opened Sched
  import opened ProcInv

  // ---------------------------------------------------------------- the tree

  /** d is a, or a descendant of a, along parent pointers that lead to smaller pids. */
  ghost predicate Descends(procs: seq<Proc>, d: int, a: int)
    requires Table(procs) && Slot(d)
    decreases procs[d].pid
  {
    d == a ||
    (Slot(procs[d].parent) && procs[procs[d].parent].pid < procs[d].pid && Descends(procs, procs[d].parent, a))
  }

  ghost predicate Runnable(procs: seq<Proc>, d: int)
    requires Table(procs)
  {
    Slot(d) && (procs[d].status == Ready || procs[d].status == Running)
  }

  lemma {:induction false} DescendsFrom(procs: seq<Proc>, d: int, c: int, a: int)
    requires Table(procs) && Slot(d) && Slot(c) && Slot(a) && Descends(procs, d, c)
    requires procs[c].parent == a && procs[a].pid < procs[c].pid
    ensures Descends(procs, d, a)
    decreases procs[d].pid
  {
    if d == c {
      assert Descends(procs, a, a);
    } else {
      DescendsFrom(procs, procs[d].parent, c, a);
    }
  }

  lemma {:induction false} DescendantPid(procs: seq<Proc>, d: int, a: int)
    requires Table(procs) && Slot(d) && Slot(a) && Descends(procs, d, a)
    ensures d == a || procs[a].pid < procs[d].pid
    decreases procs[d].pid
  {
    if d != a {
      DescendantPid(procs, procs[d].parent, a);
    }
  }

  /** Every live process descends from slot 0. */
  lemma {:induction false} OneRoot(s: State, k: int)
    requires Shape(s) && Forest(s) && Live(s.procs, k)
    ensures Descends(s.procs, k, 0)
    decreases s.procs[k].pid
  {
    if k != 0 {
      assert HasParent(s.procs, k);
      OneRoot(s, s.procs[k].parent);
    }
  }

  /**
   In every state of every run slot 0 is in use, every other live process has a live parent
   with a smaller pid, live pids are distinct and below nextpid, and slot 0 is the one root.
   */
  lemma TreeStays(states: seq<State>, events: seq<Event>, reserved: set<nat>, i: nat, k: int, j: int)
    requires Segment(states, events) && Inv(states[0], reserved) && i < |states| && Table(states[i].procs)
    requires Live(states[i].procs, k) && Live(states[i].procs, j)
    ensures Live(states[i].procs, 0) && 1 <= states[i].procs[k].pid < states[i].nextpid
    ensures k != 0 ==>
      Live(states[i].procs, states[i].procs[k].parent) &&
      states[i].procs[states[i].procs[k].parent].pid < states[i].procs[k].pid
    ensures k != j ==> states[i].procs[k].pid != states[i].procs[j].pid
    ensures Descends(states[i].procs, k, 0)
  {
    RunKeeps(states, events, reserved, i);
    OneRoot(states[i], k);
    if k != 0 {
      assert HasParent(states[i].procs, k);
    }
  }

  /** In every state of every run a page has one role: free, reserved, or a page of one live slot. */
  lemma PagesNeverShared(states: seq<State>, events: seq<Event>, reserved: set<nat>, i: nat, x: nat, k: int, j: int)
    requires Segment(states, events) && Inv(states[0], reserved) && i < |states| && Table(states[i].procs)
    ensures Distinct(states[i].free) && !(x in states[i].free && x in reserved)
    ensures Live(states[i].procs, k) && Owns(states[i].procs[k], x) ==> x !in states[i].free && x !in reserved && x != 0
    ensures
      Live(states[i].procs, k) && Owns(states[i].procs[k], x) &&
      Live(states[i].procs, j) && Owns(states[i].procs[j], x) ==>
        j == k
  {
    RunKeeps(states, events, reserved, i);
    hide Shape, Forest, Sleepers, History, Distinct;
  }

  // ---------------------------------------------------------------- nobody sleeps in vain

  /** Below every sleeper some process can run; induction over pids, which grow from parent to child. */
  lemma {:induction false} SomeoneCanRun(s: State, k: int) returns (d: int)
    requires Shape(s) && Forest(s) && Sleepers(s) && Slot(k) && s.procs[k].status == Sleeping
    ensures Runnable(s.procs, d) && d != k && Descends(s.procs, d, k)
    decreases s.nextpid - s.procs[k].pid
  {
    assert Asleep(s.procs, k);
    var c :| LivingChild(s.procs, k, c);
    assert c != 0;
    assert HasParent(s.procs, c) && Live(s.procs, c);
    assert Descends(s.procs, k, k) && Descends(s.procs, c, k);
    if s.procs[c].status == Sleeping {
      d := SomeoneCanRun(s, c);
      DescendsFrom(s.procs, d, c, k);
      DescendantPid(s.procs, d, c);
    } else {
      d := c;
    }
  }

  /**
   In every state of every run: a sleeping process other than slot 0 has no zombie child
   to collect, and every sleeping process has a descendant that can run.
   */
  lemma NoVainSleep(states: seq<State>, events: seq<Event>, reserved: set<nat>, i: nat, k: int)
    requires Segment(states, events) && Inv(states[0], reserved) && i < |states|
    requires Slot(k) && Table(states[i].procs) && states[i].procs[k].status == Sleeping
    ensures k != 0 ==> forall z :: !ZombieChild(states[i].procs, k, z)
    ensures exists d :: Runnable(states[i].procs, d) && d != k && Descends(states[i].procs, d, k)
  {
    RunKeeps(states, events, reserved, i);
    assert Asleep(states[i].procs, k);
    var d := SomeoneCanRun(states[i], k);
  }

  /** The system stops only when every process has exited: otherwise some process can run. */
  lemma NeverStuck(states: seq<State>, events: seq<Event>, reserved: set<nat>, i: nat, k: int)
    requires Segment(states, events) && Inv(states[0], reserved) && i < |states|
    requires Table(states[i].procs) && Live(states[i].procs, k) && states[i].procs[k].status != Zombie
    ensures exists d :: Runnable(states[i].procs, d) && Descends(states[i].procs, d, k)
  {
    RunKeeps(states, events, reserved, i);
    var s := states[i];
    if s.procs[k].status == Sleeping {
      var d := SomeoneCanRun(s, k);
    } else {
      assert Runnable(s.procs, k) && Descends(s.procs, k, k);
    }
  }

  // ---------------------------------------------------------------- the scheduler is fair

  /** How far the scheduler's loop still is from slot i; it resumes after the current slot. */
  ghost function Ahead(s: State, i: int): int
  {
    Dist(if s.cur == -1 then s.cursor else (s.cur + 1) % 64, i)
  }

  /** Dispatches among the first n events. */
  ghost function Dispatches(events: seq<Event>, n: nat): nat
    requires n <= |events|
  {
    if n == 0 then 0 else Dispatches(events, n - 1) + if events[n - 1].Dispatch? then 1 else 0
  }

  /** A ready slot stays ready until it is dispatched, and each dispatch of another slot brings the loop closer. */
  lemma ReadyStep(s: State, e: Event, s': State, i: int, reserved: set<nat>)
    requires Inv(s, reserved) && Step(s, e, s') && Slot(i) && s.procs[i].status == Ready && e != Dispatch(i)
    ensures Table(s'.procs) && s'.procs[i].status == Ready
    ensures e.Dispatch? ==> Ahead(s', i) < Dist(e.slot, i) <= Ahead(s, i)
    ensures !e.Dispatch? ==> Ahead(s', i) == Ahead(s, i)
  {
    hide Shape, Forest, Sleepers, Pages, History, Exited, Waited, Forked, Resumed, IsNext;
    match e
    case Dispatch(j) => CloserByDispatch(s, j, i);
    case Yield => ReadyYield(s, i);
    case Exit(status) => ReadyExit(s, status, i, reserved);
    case Wait(addr) => ReadyWait(s, addr, i);
    case Resume => ReadyResume(s, i);
    case Fork => ReadyFork(s, i);
  }

  /** Slot i is ready, and the loop stands as far from it as it did. */
  ghost predicate StillReady(s: State, s': State, i: int)
  {
    Slot(i) && Table(s'.procs) && s'.procs[i].status == Ready && Ahead(s', i) == Ahead(s, i)
  }

  lemma ReadyYield(s: State, i: int)
    requires Shape(s) && AtCall(s) && Slot(i) && s.procs[i].status == Ready
    ensures StillReady(s, Yielded(s), i)
  {}

  lemma ReadyWait(s: State, addr: int, i: int)
    requires Shape(s) && AtCall(s) && Slot(i) && s.procs[i].status == Ready
    ensures StillReady(s, Waited(s, addr), i)
  {}

  lemma ReadyResume(s: State, i: int)
    requires Shape(s) && Runs(s) && !AtCall(s) && Slot(i) && s.procs[i].status == Ready
    ensures StillReady(s, Waited(Resumed(s), s.procs[s.cur].waiting), i)
  {
    assert Resumed(s).procs[i] == s.procs[i] && Shape(Resumed(s));
    ReadyWait(Resumed(s), s.procs[s.cur].waiting, i);
  }

  lemma ReadyFork(s: State, i: int)
    requires Shape(s) && AtCall(s) && Slot(i) && s.procs[i].status == Ready
    ensures StillReady(s, Forked(s), i)
  {
    ForkCases(s);
  }

  lemma ReadyExit(s: State, status: int, i: int, reserved: set<nat>)
    requires Inv(s, reserved) && AtCall(s) && Slot(i) && s.procs[i].status == Ready
    ensures StillReady(s, Exited(s, status), i)
  {
    hide Exited, Forest, Sleepers, Pages, History, ExitOf;
    NotOwnParent(s, reserved);
    ExitIs(s, status);
    ReadyExitOf(s, status, Exited(s, status), i);
  }

  lemma ReadyExitOf(s: State, status: int, s': State, i: int)
    requires Shape(s) && AtCall(s) && Slot(i) && s.procs[i].status == Ready && ExitOf(s, status, s')
    ensures StillReady(s, s', i)
  {}

  lemma CloserByDispatch(s: State, j: int, i: int)
    requires Shape(s) && s.cur == -1 && IsNext(s.procs, s.cursor, j) && Slot(i) && s.procs[i].status == Ready && i != j
    ensures Table(Dispatched(s, j).procs) && Dispatched(s, j).procs[i].status == Ready
    ensures Ahead(Dispatched(s, j), i) < Dist(j, i) <= Ahead(s, i)
  {
    assert Dist(s.cursor, j) <= Dist(s.cursor, i);
  }

  /**
   While a ready slot i waits, it stays ready, and the loop only comes closer: at most 63
   other dispatches fit before its own.
   */
  lemma {:induction false} FairWait(states: seq<State>, events: seq<Event>, reserved: set<nat>, i: int, n: nat)
    requires Segment(states, events) && Inv(states[0], reserved) && n <= |events|
    requires Slot(i) && Table(states[0].procs) && states[0].procs[i].status == Ready
    requires forall m :: 0 <= m < n ==> events[m] != Dispatch(i)
    ensures Table(states[n].procs) && states[n].procs[i].status == Ready
    ensures Dispatches(events, n) + Ahead(states[n], i) <= Ahead(states[0], i) <= 63
  {
    hide Inv, Step;
    RunKeeps(states, events, reserved, n);
    AheadBound(states[n], i, reserved);
    if n > 0 {
      FairWait(states, events, reserved, i, n - 1);
      RunKeeps(states, events, reserved, n - 1);
      ReadyStep(states[n - 1], events[n - 1], states[n], i, reserved);
    }
  }

  lemma AheadBound(s: State, i: int, reserved: set<nat>)
    requires Inv(s, reserved) && Slot(i)
    ensures 0 <= Ahead(s, i) <= 63
  {}

  /** Before i is dispatched every other slot is dispatched at most once, in the loop's order. */
  lemma {:induction false} EachOnce(states: seq<State>, events: seq<Event>, reserved: set<nat>, i: int, a: nat, b: nat)
    requires Segment(states, events) && Inv(states[0], reserved) && a < b < |events|
    requires Slot(i) && Table(states[0].procs) && states[0].procs[i].status == Ready
    requires forall m :: 0 <= m <= b ==> events[m] != Dispatch(i)
    requires events[a].Dispatch? && events[b].Dispatch?
    ensures Dist(events[b].slot, i) < Dist(events[a].slot, i) && events[a].slot != events[b].slot
  {
    hide Inv, Step;
    RunKeeps(states, events, reserved, a);
    RunKeeps(states, events, reserved, b);
    FairWait(states, events, reserved, i, a);
    ReadyStep(states[a], events[a], states[a + 1], i, reserved);
    AheadFalls(states, events, reserved, i, a + 1, b);
    FairWait(states, events, reserved, i, b);
    ReadyStep(states[b], events[b], states[b + 1], i, reserved);
  }

  lemma {:induction false} AheadFalls(states: seq<State>, events: seq<Event>, reserved: set<nat>, i: int, a: nat,
                                      b: nat)
    requires Segment(states, events) && Inv(states[0], reserved) && a <= b <= |events|
    requires Slot(i) && Table(states[0].procs) && states[0].procs[i].status == Ready
    requires forall m :: 0 <= m < b ==> events[m] != Dispatch(i)
    ensures Ahead(states[b], i) <= Ahead(states[a], i)
    decreases b - a
  {
    hide Inv, Step;
    if a < b {
      AheadFalls(states, events, reserved, i, a, b - 1);
      FairWait(states, events, reserved, i, b - 1);
      RunKeeps(states, events, reserved, b - 1);
      ReadyStep(states[b - 1], events[b - 1], states[b], i, reserved);
    }
  }

  /** Whoever runs is the only RUNNING slot. */
  lemma OnlyOneRuns(states: seq<State>, events: seq<Event>, reserved: set<nat>, i: nat, k: int)
    requires Segment(states, events) && Inv(states[0], reserved) && i < |states| && Slot(k)
    ensures Table(states[i].procs) && (states[i].procs[k].status == Running <==> states[i].cur == k)
  {
    RunKeeps(states, events, reserved, i);
  }

  // ---------------------------------------------------------------- exits and waits

  /** What a successful wait reports: a child of the caller that exited, with its recorded status. */
  lemma WaitReports(s: State, addr: int, reserved: set<nat>)
    requires Inv(s, reserved) && AtCall(s) && WaitResult(s) != -1
    ensures var s' := Waited(s, addr); var r := Reaped(WaitResult(s), s.cur, s.exits[WaitResult(s)]);
      WaitResult(s) in s.exits && s'.reaps == s.reaps + [r] &&
      exists z :: ZombieChild(s.procs, s.cur, z) && s.procs[z].pid == WaitResult(s) && s.procs[z].xstate == r.status &&
                  !Live(s'.procs, z) && s'.free == [s.procs[z].kstack, s.procs[z].trapframe] + s.free
  {
    var z := FirstZombie(s.procs, s.cur, 0);
    assert ZombieChild(s.procs, s.cur, z) && Live(s.procs, z);
    OwnedPages(s, z, reserved);
    var t, k := s.procs[z].trapframe, s.procs[z].kstack;
    assert [k] + ([t] + s.free) == [k, t] + s.free;
  }

  lemma OwnedPages(s: State, k: int, reserved: set<nat>)
    requires Table(s.procs) && Pages(s, reserved) && Live(s.procs, k)
    ensures s.procs[k].trapframe != 0 && s.procs[k].kstack != 0
    ensures s.procs[k].trapframe !in s.free && s.procs[k].kstack !in s.free && s.procs[k].trapframe != s.procs[k].kstack
    ensures s.procs[k].trapframe !in reserved && s.procs[k].kstack !in reserved
  {
    var p := s.procs[k];
    var t: nat, ks: nat := p.trapframe, p.kstack;
    assert Owns(p, t) && Owns(p, ks);
    hide Owns, Distinct;
    assert t != 0 && t !in reserved && t !in s.free;
    assert ks != 0 && ks !in reserved && ks !in s.free;
  }

  /** wait fails exactly when the caller has no child at all. */
  lemma WaitFails(s: State, addr: int, reserved: set<nat>)
    requires Inv(s, reserved) && AtCall(s)
    ensures Waited(s, addr) == s <==> !HasChild(s.procs, s.cur)
    ensures WaitResult(s) == -1 && HasChild(s.procs, s.cur) ==> Waited(s, addr).procs[s.cur].status == Sleeping
  {
    var z := FirstZombie(s.procs, s.cur, 0);
    if z != -1 {
      assert IsChild(s.procs, z, s.cur) && |Waited(s, addr).reaps| == |s.reaps| + 1;
    } else if HasChild(s.procs, s.cur) {
      assert Waited(s, addr).cur == -1;
    }
  }

  /** Over every run no pid is collected twice, and each report carries the status of that pid's exit. */
  lemma ReportedOnce(states: seq<State>, events: seq<Event>, reserved: set<nat>, n: nat, i: nat, j: nat)
    requires Segment(states, events) && Inv(states[0], reserved) && n < |states|
    requires i < |states[n].reaps| && j < |states[n].reaps|
    ensures states[n].reaps[i].pid in states[n].exits
    ensures states[n].reaps[i].status == states[n].exits[states[n].reaps[i].pid]
    ensures states[n].reaps[i].pid == states[n].reaps[j].pid ==> i == j
  {
    RunKeeps(states, events, reserved, n);
  }

  /** A recorded status was the argument of an exit that the process with that pid made. */
  lemma {:induction false} ExitRecorded(states: seq<State>, events: seq<Event>, n: nat, pid: nat) returns (k: nat)
    requires Segment(states, events) && n < |states| && pid in states[n].exits && pid !in states[0].exits
    ensures k < n && AtCall(states[k]) && states[k].procs[states[k].cur].pid == pid
    ensures events[k] == Exit(states[n].exits[pid])
  {
    assert n > 0 && Step(states[n - 1], events[n - 1], states[n]);
    var s, e := states[n - 1], events[n - 1];
    if e.Exit? && s.procs[s.cur].pid == pid {
      k := n - 1;
    } else {
      assert pid in s.exits && states[n].exits[pid] == s.exits[pid];
      k := ExitRecorded(states, events, n - 1, pid);
    }
  }

  /** In every run from a state without exits, each report of wait goes back to the exit with that status. */
  lemma EveryReportHasItsExit(states: seq<State>, events: seq<Event>, reserved: set<nat>, n: nat, i: nat)
    returns (k: nat)
    requires Segment(states, events) && Inv(states[0], reserved) && states[0].exits == map[]
    requires n < |states| && i < |states[n].reaps|
    ensures k < n && events[k] == Exit(states[n].reaps[i].status)
    ensures AtCall(states[k]) && states[k].procs[states[k].cur].pid == states[n].reaps[i].pid
  {
    ReportedOnce(states, events, reserved, n, i, i);
    k := ExitRecorded(states, events, n, states[n].reaps[i].pid);
  }

  // ---------------------------------------------------------------- why slot 0 is an exception

  /**
   exit hands zombie children to slot 0 without waking it: slot 0 ends up asleep above an
   uncollected zombie exactly when it slept before, the exiting process is not its child,
   and the exiting process leaves a zombie child behind.
   */
  lemma OrphanUnnoticed(s: State, status: int, reserved: set<nat>)
    requires Inv(s, reserved) && AtCall(s) && forall z :: !ZombieChild(s.procs, 0, z)
    ensures Table(Exited(s, status).procs)
    ensures Exited(s, status).procs[0].status == Sleeping &&
            (exists z :: ZombieChild(Exited(s, status).procs, 0, z)) <==>
      s.procs[0].status == Sleeping && s.procs[s.cur].parent != 0 && exists z :: ZombieChild(s.procs, s.cur, z)
  {
    hide Exited, Forest, Pages, History;
    NotOwnParent(s, reserved);
    ExitIs(s, status);
    var t := Exited(s, status).procs;
    if s.procs[0].status == Sleeping {
      assert Asleep(s.procs, 0);
    }
    hide Sleepers;
    forall z | Slot(z) && z != s.cur
      ensures ZombieChild(t, 0, z) <==> ZombieChild(s.procs, s.cur, z)
    {
      assert !ZombieChild(s.procs, 0, z);
    }
    if z :| ZombieChild(s.procs, s.cur, z) {
      assert z != s.cur && ZombieChild(t, 0, z);
    }
  }

  /** Statuses and parents of the first four slots; the other sixty are FREE. */
  ghost predicate Brief(s: State, cur: int, cursor: int, pages: nat, st: seq<Status>, par: seq<int>)
  {
    Table(s.procs) && |st| == 4 && |par| == 4 && s.cur == cur && s.cursor == cursor && Slot(cursor) &&
    |s.free| >= pages &&
    (forall k :: 0 <= k < 4 ==> s.procs[k].status == st[k] && s.procs[k].parent == par[k]) &&
    (forall k :: 1 <= k < 4 ==> s.procs[k].waiting < 0) &&
    (if st[0] == Sleeping then s.procs[0].chan == 0 else s.procs[0].waiting < 0) &&
    (forall k :: 4 <= k < 64 ==> s.procs[k].status == Free && s.procs[k].parent == -1)
  }

  lemma BriefDispatch(s: State, i: int, cursor: int, pages: nat, st: seq<Status>, par: seq<int>)
    requires Brief(s, -1, cursor, pages, st, par) && 0 <= i < 4 && st[i] == Ready
    requires forall j :: 0 <= j < 4 && st[j] == Ready ==> Dist(cursor, i) <= Dist(cursor, j)
    ensures Step(s, Dispatch(i), Dispatched(s, i)) && Brief(Dispatched(s, i), i, i, pages, st[i := Running], par)
  {}

  lemma BriefFork(s: State, i: int, f: int, pages: nat, st: seq<Status>, par: seq<int>)
    requires Brief(s, i, i, pages + 2, st, par) && 0 <= i < f < 4 && st[i] == Running && st[f] == Free
    requires forall j :: 0 <= j < f ==> st[j] != Free
    ensures Step(s, Fork, Forked(s)) && Brief(Forked(s), i, i, pages, st[f := Ready], par[f := i])
  {
    assert FirstFree(s.procs, 0) == f;
  }

  lemma BriefYield(s: State, i: int, pages: nat, st: seq<Status>, par: seq<int>)
    requires Brief(s, i, i, pages, st, par) && 0 <= i < 4 && st[i] == Running
    ensures Step(s, Yield, Yielded(s)) && Brief(Yielded(s), -1, i + 1, pages, st[i := Ready], par)
  {}

  lemma BriefWait(s: State, pages: nat, st: seq<Status>, par: seq<int>)
    requires Brief(s, 0, 0, pages, st, par) && st[0] == Running && par[1] == 0
    requires forall k :: 0 <= k < 4 ==> st[k] != Zombie
    ensures Step(s, Wait(0), Waited(s, 0)) && Brief(Waited(s, 0), -1, 1, pages, st[0 := Sleeping], par)
  {
    assert IsChild(s.procs, 1, 0);
    assert FirstZombie(s.procs, 0, 0) == -1;
  }

  /** exit of a process without a sleeping parent. */
  lemma BriefExit(s: State, i: int, status: int, pages: nat, st: seq<Status>, par: seq<int>)
    requires Brief(s, i, i, pages, st, par) && 0 < i < 4 && st[i] == Running && par[i] != 0 && par[i] != i
    requires forall k :: 1 <= k < 4 ==> st[k] != Sleeping
    ensures Step(s, Exit(status), Exited(s, status))
    ensures Brief(Exited(s, status), -1, i + 1, pages, st[i := Zombie],
                  seq(4, k requires 0 <= k < 4 => if par[k] == i then 0 else par[k]))
  {
    hide Exited;
    ExitIs(s, status);
    BriefExitOf(s, i, status, pages, st, par, Exited(s, status));
  }

  lemma BriefExitOf(s: State, i: int, status: int, pages: nat, st: seq<Status>, par: seq<int>, s': State)
    requires Brief(s, i, i, pages, st, par) && 0 < i < 4 && par[i] != 0 && par[i] != i && ExitOf(s, status, s')
    requires forall k :: 1 <= k < 4 ==> st[k] != Sleeping
    ensures Brief(s', -1, i + 1, pages, st[i := Zombie],
                  seq(4, k requires 0 <= k < 4 => if par[k] == i then 0 else par[k]))
  {}

  /** A run from boot that ends in s. */
  ghost predicate Reachable(pages: seq<nat>, s: State)
    requires |pages| >= 4
  {
    exists states: seq<State>, events ::
      Segment(states, events) && states[0] == Booted(pages) && states[|states| - 1] == s
  }

  lemma ReachableStep(pages: seq<nat>, s: State, e: Event, s': State)
    requires |pages| >= 4 && Reachable(pages, s) && Step(s, e, s')
    ensures Reachable(pages, s')
  {
    hide Step;
    var states: seq<State>, events :|
      Segment(states, events) && states[0] == Booted(pages) && states[|states| - 1] == s;
    var states', events' := states + [s'], events + [e];
    forall i | 0 <= i < |events'|
      ensures Step(states'[i], events'[i], states'[i + 1])
    {
      if i < |events| {
        assert Step(states[i], events[i], states[i + 1]);
      }
    }
    assert Segment(states', events') && states'[0] == Booted(pages) && states'[|states'| - 1] == s';
  }

  /** One more step of the run below, for each kind of event. */
  lemma ThenDispatch(pages: seq<nat>, s: State, i: int, cursor: int, n: nat, st: seq<Status>, par: seq<int>)
    returns (s': State)
    requires |pages| >= 4 && Reachable(pages, s) && Brief(s, -1, cursor, n, st, par) && 0 <= i < 4 && st[i] == Ready
    requires forall j :: 0 <= j < 4 && st[j] == Ready ==> Dist(cursor, i) <= Dist(cursor, j)
    ensures Reachable(pages, s') && Brief(s', i, i, n, st[i := Running], par)
  {
    s' := Dispatched(s, i);
    BriefDispatch(s, i, cursor, n, st, par);
    ReachableStep(pages, s, Dispatch(i), s');
  }

  lemma ThenYield(pages: seq<nat>, s: State, i: int, n: nat, st: seq<Status>, par: seq<int>) returns (s': State)
    requires |pages| >= 4 && Reachable(pages, s) && Brief(s, i, i, n, st, par) && 0 <= i < 4 && st[i] == Running
    ensures Reachable(pages, s') && Brief(s', -1, i + 1, n, st[i := Ready], par)
  {
    s' := Yielded(s);
    BriefYield(s, i, n, st, par);
    ReachableStep(pages, s, Yield, s');
  }

  lemma ThenForkYield(pages: seq<nat>, s: State, i: int, f: int, n: nat, st: seq<Status>, par: seq<int>)
    returns (s': State)
    requires |pages| >= 4 && Reachable(pages, s) && Brief(s, i, i, n + 2, st, par)
    requires 0 <= i < f < 4 && st[i] == Running && st[f] == Free && forall j :: 0 <= j < f ==> st[j] != Free
    ensures Reachable(pages, s') && Brief(s', -1, i + 1, n, st[f := Ready][i := Ready], par[f := i])
  {
    var t := Forked(s);
    BriefFork(s, i, f, n, st, par);
    ReachableStep(pages, s, Fork, t);
    s' := ThenYield(pages, t, i, n, st[f := Ready], par[f := i]);
  }

  lemma ThenExit(pages: seq<nat>, s: State, i: int, n: nat, st: seq<Status>, par: seq<int>) returns (s': State)
    requires |pages| >= 4 && Reachable(pages, s) && Brief(s, i, i, n, st, par)
    requires 0 < i < 4 && st[i] == Running && par[i] != 0 && par[i] != i && forall k :: 1 <= k < 4 ==> st[k] != Sleeping
    ensures Reachable(pages, s')
    ensures Brief(s', -1, i + 1, n, st[i := Zombie], seq(4, k requires 0 <= k < 4 => if par[k] == i then 0 else par[k]))
  {
    s' := Exited(s, 7);
    BriefExit(s, i, 7, n, st, par);
    ReachableStep(pages, s, Exit(7), s');
  }

  /** Slot 0 forks 1 and waits. */
  lemma FamilyOfTwo(pages: seq<nat>) returns (s: State)
    requires |pages| >= 10
    ensures Reachable(pages, s) && Brief(s, -1, 1, 4, [Sleeping, Ready, Free, Free], [-1, 0, -1, -1])
  {
    hide Reachable, Forked, Waited, Step;
    var b := Booted(pages);
    BootedBrief(pages);
    s := ThenDispatch(pages, b, 0, 0, 6, [Ready, Free, Free, Free], [-1, -1, -1, -1]);
    var t := Forked(s);
    BriefFork(s, 0, 1, 4, [Running, Free, Free, Free], [-1, -1, -1, -1]);
    ReachableStep(pages, s, Fork, t);
    s := Waited(t, 0);
    BriefWait(t, 4, [Running, Ready, Free, Free], [-1, 0, -1, -1]);
    ReachableStep(pages, t, Wait(0), s);
  }

  /** Then 1 forks 2, which forks 3. */
  lemma FamilyOfFour(pages: seq<nat>) returns (s: State)
    requires |pages| >= 10
    ensures Reachable(pages, s) && Brief(s, -1, 3, 0, [Sleeping, Ready, Ready, Ready], [-1, 0, 1, 2])
  {
    hide Reachable;
    s := FamilyOfTwo(pages);
    s := ThenDispatch(pages, s, 1, 1, 4, [Sleeping, Ready, Free, Free], [-1, 0, -1, -1]);
    s := ThenForkYield(pages, s, 1, 2, 2, [Sleeping, Running, Free, Free], [-1, 0, -1, -1]);
    s := ThenDispatch(pages, s, 2, 2, 2, [Sleeping, Ready, Ready, Free], [-1, 0, 1, -1]);
    s := ThenForkYield(pages, s, 2, 3, 0, [Sleeping, Ready, Running, Free], [-1, 0, 1, -1]);
    assert [Sleeping, Ready, Running, Free][3 := Ready][2 := Ready] == [Sleeping, Ready, Ready, Ready];
  }

  lemma BootedBrief(pages: seq<nat>)
    requires |pages| >= 10
    ensures Reachable(pages, Booted(pages))
    ensures Brief(Booted(pages), -1, 0, 6, [Ready, Free, Free, Free], [-1, -1, -1, -1])
  {
    var states, events: seq<Event> := [Booted(pages)], [];
    assert Segment(states, events) && states[0] == Booted(pages) && states[|states| - 1] == Booted(pages);
  }

  /** 3 exits before 2 collects it. */
  lemma GrandchildGone(pages: seq<nat>) returns (s: State)
    requires |pages| >= 10
    ensures Reachable(pages, s) && Brief(s, -1, 4, 0, [Sleeping, Ready, Ready, Zombie], [-1, 0, 1, 2])
  {
    hide Reachable;
    var par := [-1, 0, 1, 2];
    s := FamilyOfFour(pages);
    s := ThenDispatch(pages, s, 3, 3, 0, [Sleeping, Ready, Ready, Ready], par);
    s := ThenExit(pages, s, 3, 0, [Sleeping, Ready, Ready, Running], par);
    assert seq(4, k requires 0 <= k < 4 => if par[k] == 3 then 0 else par[k]) == par;
  }

  /** Then 2 exits: slot 0 sleeps on above the zombie 3. */
  lemma SlotZeroSleepsInVain(pages: seq<nat>) returns (s: State)
    requires |pages| >= 10
    ensures Reachable(pages, s) && Table(s.procs) && s.procs[0].status == Sleeping && ZombieChild(s.procs, 0, 3)
  {
    hide Reachable;
    var par := [-1, 0, 1, 2];
    s := GrandchildGone(pages);
    s := ThenDispatch(pages, s, 1, 4, 0, [Sleeping, Ready, Ready, Zombie], par);
    s := ThenYield(pages, s, 1, 0, [Sleeping, Running, Ready, Zombie], par);
    s := ThenDispatch(pages, s, 2, 2, 0, [Sleeping, Ready, Ready, Zombie], par);
    s := ThenExit(pages, s, 2, 0, [Sleeping, Ready, Running, Zombie], par);
  }
}

/**
 Sv39 page tables built in place (kernel/mm/vm.c, kernel/include/riscv.h), and the
 hardware's translation algorithm (RISC-V Privileged Architecture 20211203, section
 4.3.2 with the parameters of section 4.4).
 */
module Vm {
  import opened Wrappers
  import opened Kalloc

  const MAXVA: nat := 0x40_0000_0000
  const VPNS: nat := 0x400_0000

  const PTE_V: nat := 1
  const PTE_R: nat := 2
  const PTE_W: nat := 4
  const PTE_X: nat := 8
  const PTE_U: nat := 16

  // ---------------------------------------------------------------- page-table entries

  predicate V(pte: u64) { pte % 2 == 1 }
  predicate R(pte: u64) { pte / 2 % 2 == 1 }
  predicate W(pte: u64) { pte / 4 % 2 == 1 }
  predicate X(pte: u64) { pte / 8 % 2 == 1 }
  predicate U(pte: u64) { pte / 16 % 2 == 1 }

  /** PX: the nine index bits of one level. */
  function PX(level: nat, va: nat): (r: nat)
    requires level < 3
    ensures r < 512
  {
    if level == 0 then va / 0x1000 % 512 else if level == 1 then va / 0x20_0000 % 512 else va / 0x4000_0000 % 512
  }

  function Pa2Pte(pa: u64): (r: u64)
    ensures r % 1024 == 0 && r < 0x4000_0000_0000_0000
  {
    pa / 4096 * 1024
  }

  function Pte2Pa(pte: u64): u64 { pte / 1024 * 4096 % 0x1_0000_0000_0000_0000 }

  /** PA2PTE(pa) | perm | PTE_V: the low ten bits of PA2PTE are zero, so the first "or" is a sum. */
  function MakePte(pa: u64, perm: nat): (r: u64)
    requires perm < 1024
    ensures V(r)
  {
    assert Pa2Pte(pa) % 2 == 0 by {
      EvenTable(Pa2Pte(pa));
    }
    hide Pa2Pte;
    Pa2Pte(pa) + perm + (1 - perm % 2)
  }

  lemma EvenTable(w: nat)
    requires w % 1024 == 0
    ensures w % 2 == 0
  {
    assert w == 1024 * (w / 1024);
  }

  /** PTE2PA undoes PA2PTE up to the page offset, and PTE_FLAGS returns the permissions. */
  lemma PteRoundTrip(pa: u64, perm: nat)
    requires perm < 1024
    ensures Pte2Pa(MakePte(pa, perm)) == pa / 4096 * 4096
    ensures MakePte(pa, perm) % 1024 == perm + (1 - perm % 2)
    ensures MakePte(pa, perm) / 1024 == pa / 4096
  {}

  /** Below MAXVA the three indices determine the page. */
  lemma IndicesInjective(va: nat, vb: nat)
    requires va < MAXVA && vb < MAXVA
    requires PX(2, va) == PX(2, vb) && PX(1, va) == PX(1, vb) && PX(0, va) == PX(0, vb)
    ensures va / 4096 == vb / 4096
  {
    IndicesOf(va);
    IndicesOf(vb);
  }

  lemma IndicesOf(va: nat)
    requires va < MAXVA
    ensures PX(2, va) == va / 4096 / 262144 && PX(1, va) == va / 4096 / 512 % 512 && PX(0, va) == va / 4096 % 512
    ensures va / 4096 == PX(2, va) * 262144 + PX(1, va) * 512 + PX(0, va)
  {
    var v := va / 4096;
    assert va / 0x20_0000 == v / 512 && va / 0x4000_0000 == v / 262144;
    assert v < VPNS;
    Digits(v);
  }

  // ---------------------------------------------------------------- the tree

  /** The tables of the tree: the root, and one per used index path. */
  datatype Node = Root | Mid(i2: nat) | Low(i2: nat, i1: nat)

  predicate InTree(x: Node)
  {
    match x case Root => true case Mid(i2) => i2 < 512 case Low(i2, i1) => i2 < 512 && i1 < 512
  }

  function Child(x: Node, i: nat): Node
    requires !x.Low?
  {
    match x case Root => Mid(i) case Mid(i2) => Low(i2, i)
  }

  function Parent(x: Node): Node
    requires !x.Root?
  {
    match x case Mid(i2) => Root case Low(i2, i1) => Mid(i2)
  }

  /** The table whose entries level `level` of a walk for page v reads. */
  function TableOf(level: nat, v: nat): (r: Node)
    requires level < 3
  {
    if level == 2 then Root else if level == 1 then Mid(v / 262144) else Low(v / 262144, v / 512 % 512)
  }

  function Path(v: nat): set<Node>
  {
    {TableOf(1, v), TableOf(0, v)}
  }

  predicate TablePage(p: nat)
  {
    p % 4096 == 0 && 0 < p < PHYSTOP
  }

  /** The tables are distinct pages of memory, and each hangs below another one. */
  ghost predicate TreeShape(mem: map<nat, Page>, nodes: map<Node, nat>, root: nat)
  {
    Root in nodes && nodes[Root] == root &&
    (forall x, y :: x in nodes && y in nodes && nodes[x] == nodes[y] ==> x == y) &&
    (forall x :: x in nodes ==> nodes[x] in mem && TablePage(nodes[x]) && InTree(x)) &&
    (forall x {:trigger Parent(x)} :: x in nodes && x != Root ==> Parent(x) in nodes)
  }

  /** Entry i of an inner table is the pointer to the child table i, and is invalid without one. */
  ghost predicate Entry(mem: map<nat, Page>, nodes: map<Node, nat>, x: Node, i: nat)
    requires x in nodes && nodes[x] in mem && !x.Low? && i < 512
  {
    if Child(x, i) in nodes
    then TablePage(nodes[Child(x, i)]) && mem[nodes[x]][i] == Pa2Pte(nodes[Child(x, i)]) + 1
    else !V(mem[nodes[x]][i])
  }

  /** The pages `nodes` form the page table at `root`, with no page used twice. */
  ghost predicate Tree(mem: map<nat, Page>, nodes: map<Node, nat>, root: nat)
  {
    TreeShape(mem, nodes, root) &&
    (forall x, i :: x in nodes && !x.Low? && 0 <= i < 512 ==> Entry(mem, nodes, x, i))
  }

  /** The abstract translation map: the leaf entry of page v, or 0 when there is no leaf table. */
  ghost function Leaf(mem: map<nat, Page>, nodes: map<Node, nat>, v: nat): u64
    requires TableOf(0, v) in nodes ==> nodes[TableOf(0, v)] in mem
  {
    if TableOf(0, v) in nodes then mem[nodes[TableOf(0, v)]][v % 512] else 0
  }

  ghost predicate Linked(mem: map<nat, Page>, nodes: map<Node, nat>, x: Node, i: nat, page: nat, mem': map<nat, Page>)
  {
    x in nodes && nodes[x] in mem && !x.Low? && i < 512 && Child(x, i) !in nodes &&
    page in mem && TablePage(page) && page !in nodes.Values &&
    mem' == mem[page := ZeroPage()][nodes[x] := mem[nodes[x]][i := Pa2Pte(page) + 1]]
  }

  lemma LinkedOthers(mem: map<nat, Page>, nodes: map<Node, nat>, root: nat, x: Node, i: nat, page: nat,
                     mem': map<nat, Page>)
    requires TreeShape(mem, nodes, root) && Linked(mem, nodes, x, i, page, mem')
    ensures forall y ::
      y in nodes ==> nodes[y] != page && nodes[y] in mem' && (y != x ==> mem'[nodes[y]] == mem[nodes[y]])
  {
    forall y | y in nodes
      ensures nodes[y] != page
    {
      assert nodes[y] in nodes.Values;
    }
  }

  /** Linking a cleared page below entry i of table x. */
  lemma AddNode(mem: map<nat, Page>, nodes: map<Node, nat>, root: nat, x: Node, i: nat, page: nat, mem': map<nat, Page>)
    requires Tree(mem, nodes, root) && Linked(mem, nodes, x, i, page, mem')
    ensures Tree(mem', nodes[Child(x, i) := page], root)
  {
    LinkedOthers(mem, nodes, root, x, i, page, mem');
    AddNodeShape(mem, nodes, root, x, i, page, mem');
    var c := Child(x, i);
    var nodes' := nodes[c := page];
    forall y, j | y in nodes' && !y.Low? && 0 <= j < 512
      ensures Entry(mem', nodes', y, j)
    {
      if y == c {
        NoGrandChild(nodes, x, i, j);
      } else {
        assert Entry(mem, nodes, y, j);
        hide TreeShape, Tree, Pa2Pte, V;
        assert Child(y, j) == c <==> y == x && j == i;
      }
    }
  }

  lemma NoGrandChild(nodes: map<Node, nat>, x: Node, i: nat, j: nat)
    requires !x.Low? && !Child(x, i).Low? && Child(x, i) !in nodes
    requires forall y {:trigger Parent(y)} :: y in nodes && y != Root ==> Parent(y) in nodes
    ensures Child(Child(x, i), j) !in nodes && Child(Child(x, i), j) != Child(x, i)
  {
    assert Parent(Child(Child(x, i), j)) == Child(x, i);
  }

  lemma AddNodeShape(mem: map<nat, Page>, nodes: map<Node, nat>, root: nat, x: Node, i: nat, page: nat,
                     mem': map<nat, Page>)
    requires TreeShape(mem, nodes, root) && Linked(mem, nodes, x, i, page, mem')
    ensures TreeShape(mem', nodes[Child(x, i) := page], root)
  {
    LinkedOthers(mem, nodes, root, x, i, page, mem');
    hide TablePage, Pa2Pte, V;
  }

  lemma AddNodeLeaves(mem: map<nat, Page>, nodes: map<Node, nat>, root: nat, x: Node, i: nat, page: nat,
                      mem': map<nat, Page>)
    requires Tree(mem, nodes, root) && Linked(mem, nodes, x, i, page, mem')
    ensures forall v :: 0 <= v < VPNS ==> Leaf(mem', nodes[Child(x, i) := page], v) == Leaf(mem, nodes, v)
  {
    AddNode(mem, nodes, root, x, i, page, mem');
    LinkedOthers(mem, nodes, root, x, i, page, mem');
    hide Tree, Pa2Pte, V, TablePage;
    assert mem'[page] == ZeroPage();
  }

  /** A write inside one leaf table changes that one translation. */
  lemma SetLeaf(mem: map<nat, Page>, nodes: map<Node, nat>, root: nat, v: nat, w: u64)
    requires Tree(mem, nodes, root) && v < VPNS && TableOf(0, v) in nodes
    ensures Tree(mem[nodes[TableOf(0, v)] := mem[nodes[TableOf(0, v)]][v % 512 := w]], nodes, root)
    ensures forall u :: 0 <= u < VPNS ==>
      Leaf(mem[nodes[TableOf(0, v)] := mem[nodes[TableOf(0, v)]][v % 512 := w]], nodes, u) ==
      if u == v then w else Leaf(mem, nodes, u)
  {
    var t := TableOf(0, v);
    var mem' := mem[nodes[t] := mem[nodes[t]][v % 512 := w]];
    forall y, i | y in nodes && !y.Low? && 0 <= i < 512
      ensures Entry(mem', nodes, y, i)
    {
      assert Entry(mem, nodes, y, i) && nodes[y] != nodes[t];
    }
    forall u | 0 <= u < VPNS
      ensures Leaf(mem', nodes, u) == if u == v then w else Leaf(mem, nodes, u)
    {
      if TableOf(0, u) == t && u != v {
        SameTable(u, v);
      }
    }
  }

  lemma SameTable(u: nat, v: nat)
    requires u < VPNS && v < VPNS && TableOf(0, u) == TableOf(0, v) && u != v
    ensures u % 512 != v % 512
  {
    Digits(u);
    Digits(v);
  }

  lemma Digits(v: nat)
    ensures v == v / 262144 * 262144 + v / 512 % 512 * 512 + v % 512
  {
    var q := v / 512;
    assert v == 512 * q + v % 512 && q == 512 * (q / 512) + q % 512;
    assert v / 262144 == q / 512;
  }

  /** Memory outside the tables does not matter to the tree. */
  lemma TreeFrame(mem: map<nat, Page>, mem': map<nat, Page>, nodes: map<Node, nat>, root: nat)
    requires Tree(mem, nodes, root)
    requires forall x :: x in nodes ==> nodes[x] in mem' && mem'[nodes[x]] == mem[nodes[x]]
    ensures Tree(mem', nodes, root)
    ensures forall v :: 0 <= v < VPNS ==> Leaf(mem', nodes, v) == Leaf(mem, nodes, v)
  {
    forall x, i | x in nodes && !x.Low? && 0 <= i < 512
      ensures Entry(mem', nodes, x, i)
    {
      assert Entry(mem, nodes, x, i);
    }
  }

  /** An entry of an inner table may change only from one invalid value to another. */
  ghost predicate TreeSpared(mem: map<nat, Page>, nodes: map<Node, nat>, pg: nat, idx: nat, w: u64)
    requires pg in mem && idx < 512
  {
    forall x :: x in nodes && !x.Low? && nodes[x] == pg ==>
      if Child(x, idx) in nodes then w == mem[pg][idx] else !V(w)
  }

  /** A store keeps the tree exactly when it spares the entries of inner tables. */
  lemma StoreTree(mem: map<nat, Page>, nodes: map<Node, nat>, root: nat, pg: nat, idx: nat, w: u64)
    requires Tree(mem, nodes, root) && pg in mem && idx < 512
    ensures Tree(mem[pg := mem[pg][idx := w]], nodes, root) <==> TreeSpared(mem, nodes, pg, idx, w)
  {
    var mem' := mem[pg := mem[pg][idx := w]];
    assert TreeShape(mem', nodes, root);
    hide TreeShape, TablePage, Pa2Pte, V;
    if TreeSpared(mem, nodes, pg, idx, w) {
      forall x, i | x in nodes && !x.Low? && 0 <= i < 512
        ensures Entry(mem', nodes, x, i)
      {
        assert Entry(mem, nodes, x, i);
      }
    }
    if Tree(mem', nodes, root) {
      forall x | x in nodes && !x.Low? && nodes[x] == pg
        ensures if Child(x, idx) in nodes then w == mem[pg][idx] else !V(w)
      {
        assert Entry(mem, nodes, x, idx) && Entry(mem', nodes, x, idx);
      }
    }
  }

  // ---------------------------------------------------------------- the hardware

  datatype Translation = Translation(pa: nat, flags: nat)

  /** Bits 63:54 are reserved and must be zero; a writable page must be readable. */
  predicate WellFormed(pte: u64)
  {
    V(pte) && (W(pte) ==> R(pte)) && pte < 0x40_0000_0000_0000
  }

  /** A pointer entry has D, A and U clear. */
  predicate PointerPte(pte: u64)
  {
    !U(pte) && pte / 64 % 4 == 0
  }

  function PageBytes(level: nat): nat
    requires level < 3
  {
    if level == 0 then 0x1000 else if level == 1 then 0x20_0000 else 0x4000_0000
  }

  /**
   Steps 2 to 8 of the translation algorithm at `level`, in the table at `a`; access
   permissions and the A and D bits are left to the caller.
   */
  function Translate(mem: map<nat, Page>, a: nat, level: nat, va: nat): Option<Translation>
    requires level < 3
    decreases level
  {
    if a !in mem then None
    else
      var pte := mem[a][PX(level, va)];
      if !WellFormed(pte) then None
      else if R(pte) || X(pte) then
        if pte / 1024 * 4096 % PageBytes(level) != 0 then None
        else Some(Translation(pte / 1024 * 4096 + va % PageBytes(level), pte % 1024))
      else if level == 0 || !PointerPte(pte) then None
      else Translate(mem, pte / 1024 * 4096, level - 1, va)
  }

  /** What a leaf entry means to the hardware. */
  function LeafMeaning(pte: u64, va: nat): Option<Translation>
  {
    if WellFormed(pte) && (R(pte) || X(pte)) then Some(Translation(pte / 1024 * 4096 + va % 4096, pte % 1024)) else None
  }

  lemma PointerEntry(p: nat)
    requires TablePage(p)
    ensures var w := Pa2Pte(p) + 1; WellFormed(w) && !R(w) && !X(w) && PointerPte(w) && w / 1024 * 4096 == p
  {
    var q := p / 4096;
    assert p == q * 4096 && q < 0x88000;
    var w := q * 1024 + 1;
    assert w / 2 == q * 512 && w / 4 == q * 256 && w / 8 == q * 128 && w / 16 == q * 64 && w / 64 == q * 16;
    assert w / 1024 == q;
  }

  /** One level down: a valid pointer entry leads to the child table, an invalid one to a fault. */
  lemma TranslateStep(mem: map<nat, Page>, nodes: map<Node, nat>, root: nat, level: nat, x: Node, va: nat)
    requires Tree(mem, nodes, root) && x in nodes && !x.Low? && 1 <= level < 3
    ensures nodes[x] in mem && (Child(x, PX(level, va)) in nodes ==> nodes[Child(x, PX(level, va))] in mem)
    ensures Translate(mem, nodes[x], level, va) ==
      if Child(x, PX(level, va)) in nodes then Translate(mem, nodes[Child(x, PX(level, va))], level - 1, va) else None
  {
    var i := PX(level, va);
    assert Entry(mem, nodes, x, i);
    if Child(x, i) in nodes {
      PointerEntry(nodes[Child(x, i)]);
      hide Tree, Pa2Pte, PointerPte, R, X, U, W, V;
    }
  }

  lemma TranslateLeaf(mem: map<nat, Page>, a: nat, va: nat)
    requires a in mem
    ensures Translate(mem, a, 0, va) == LeafMeaning(mem[a][PX(0, va)], va)
  {
    hide R, X, U, W, V, PointerPte, PX;
    assert mem[a][PX(0, va)] as int / 1024 * 4096 % 4096 == 0;
  }

  /** The MMU sees exactly the abstract map: for every address it finds the leaf entry of its page. */
  lemma HardwareAgrees(mem: map<nat, Page>, nodes: map<Node, nat>, root: nat, va: nat)
    requires Tree(mem, nodes, root) && va < MAXVA
    ensures Translate(mem, root, 2, va) == LeafMeaning(Leaf(mem, nodes, va / 4096), va)
  {
    assert !WellFormed(0);
    hide R, X, U, W, V, Pa2Pte, PointerPte;
    IndicesOf(va);
    var v := va / 4096;
    var mid, low := TableOf(1, v), TableOf(0, v);
    assert Child(Root, PX(2, va)) == mid && Child(mid, PX(1, va)) == low && Parent(low) == mid;
    TranslateStep(mem, nodes, root, 2, Root, va);
    if mid in nodes {
      TranslateStep(mem, nodes, root, 1, mid, va);
      if low in nodes {
        TranslateLeaf(mem, nodes[low], va);
      }
    } else {
      assert low !in nodes;
    }
  }

  lemma PointerBack(p: nat)
    requires TablePage(p)
    ensures V(Pa2Pte(p) + 1) && Pte2Pa(Pa2Pte(p) + 1) == p
  {
    PointerEntry(p);
  }

  lemma NonzeroPage(p: nat)
    requires TablePage(p)
    ensures p != 0
  {}

  lemma ChildIndex(level: nat, va: nat)
    requires 1 <= level < 3 && va < MAXVA
    ensures !TableOf(level, va / 4096).Low?
    ensures Child(TableOf(level, va / 4096), PX(level, va)) == TableOf(level - 1, va / 4096)
  {
    IndicesOf(va);
  }

  // ---------------------------------------------------------------- which tables a range needs

  /** The tables that walks for pages lo .. lo + n go through. */
  ghost function Needed(lo: nat, n: nat): set<Node>
  {
    if n == 0 then {} else Needed(lo, n - 1) + Path(lo + n - 1)
  }

  lemma {:induction false} NeededMonotone(lo: nat, k: nat, n: nat)
    requires k <= n
    ensures Needed(lo, k) <= Needed(lo, n)
    decreases n
  {
    if k < n {
      NeededMonotone(lo, k, n - 1);
    }
  }

  lemma CardMonotone(a: set<Node>, b: set<Node>)
    requires a <= b
    ensures |a| <= |b| && (|a| == |b| ==> a == b)
  {
    assert b == a + (b - a);
  }

  /** Whether a run that needs `extra` further tables fits in memory, from what it left behind. */
  lemma EnoughPages(was: set<Node>, now: set<Node>, needed: set<Node>, free0: nat, free1: nat, done: bool)
    requires was <= now <= was + needed && free0 + |was| == free1 + |now|
    requires if done then now == was + needed else free1 == 0 && now != was + needed
    ensures done <==> free0 >= |needed - was|
  {
    assert was + needed == was + (needed - was);
    if !done {
      CardMonotone(now, was + needed);
    }
  }

  /** What building tables may do: take free pages for new tables, and touch no other page. */
  ghost predicate Grew(mem0: map<nat, Page>, nodes0: map<Node, nat>, free0: seq<nat>, mem: map<nat, Page>,
                       nodes: map<Node, nat>, free: seq<nat>)
  {
    mem.Keys == mem0.Keys && |free| + |nodes| == |free0| + |nodes0| &&
    (forall x :: x in nodes0 ==> x in nodes && nodes[x] == nodes0[x]) &&
    (forall x :: x in nodes && x !in nodes0 ==> nodes[x] in free0) &&
    (forall p :: p in free ==> p in free0) &&
    (forall q :: q in mem && q !in nodes.Values ==> mem[q] == mem0[q])
  }

  lemma GrewTrans(mem0: map<nat, Page>, nodes0: map<Node, nat>, free0: seq<nat>, mem1: map<nat, Page>,
                  nodes1: map<Node, nat>,
                  free1: seq<nat>, mem2: map<nat, Page>, nodes2: map<Node, nat>, free2: seq<nat>)
    requires Grew(mem0, nodes0, free0, mem1, nodes1, free1) && Grew(mem1, nodes1, free1, mem2, nodes2, free2)
    ensures Grew(mem0, nodes0, free0, mem2, nodes2, free2)
  {
    forall q | q in nodes1.Values
      ensures q in nodes2.Values
    {
      var x :| x in nodes1 && nodes1[x] == q;
      assert nodes2[x] in nodes2.Values;
    }
  }

  function PagesOf(va: nat, size: nat): (n: nat)
    requires 0 < size
    ensures 0 < n && va / 4096 + n - 1 == (va + size - 1) / 4096
  {
    (va + size - 1) / 4096 - va / 4096 + 1
  }

  /** The map `before`, extended by pages lo .. lo + k with their physical pages. */
  function Extended(lo: nat, k: nat, pa: u64, perm: nat, v: nat, before: u64): u64
    requires perm < 1024
  {
    if lo <= v < lo + k then MakePte(PaOf(pa, v - lo), perm) else before
  }

  /** The 64-bit address k pages after pa. */
  lemma ExtendedNone(lo: nat, pa: u64, perm: nat)
    requires perm < 1024
    ensures forall v: nat, w: u64 {:trigger Extended(lo, 0, pa, perm, v, w)} :: Extended(lo, 0, pa, perm, v, w) == w
  {}

  /** Mapping page lo + k as well. */
  lemma ExtendedStep(lo: nat, k: nat, pa: u64, perm: nat)
    requires perm < 1024
    ensures forall v: nat, w: u64 {:trigger Extended(lo, k + 1, pa, perm, v, w)} ::
      Extended(lo, k + 1, pa, perm, v, w) ==
      if v == lo + k then MakePte(PaOf(pa, k), perm) else Extended(lo, k, pa, perm, v, w)
    ensures forall w: u64 {:trigger Extended(lo, k, pa, perm, lo + k, w)} :: Extended(lo, k, pa, perm, lo + k, w) == w
  {
    hide MakePte, PaOf;
  }

  function PaOf(pa: u64, k: nat): u64
  {
    (pa + k * 4096) % 0x1_0000_0000_0000_0000
  }

  lemma NextPa(pa: u64, k: nat)
    ensures (PaOf(pa, k) + 4096) % 0x1_0000_0000_0000_0000 == PaOf(pa, k + 1) && PaOf(pa, 0) == pa
  {
    var m := 0x1_0000_0000_0000_0000;
    var a := pa + k * 4096;
    var q, r := a / m, a % m;
    assert a == m * q + r;
    if r + 4096 < m {
      Remainder(a + 4096, m, q, r + 4096);
      Remainder(r + 4096, m, 0, r + 4096);
    } else {
      Remainder(a + 4096, m, q + 1, r + 4096 - m);
      Remainder(r + 4096, m, 1, r + 4096 - m);
    }
  }

  lemma Remainder(a: nat, m: nat, q: nat, r: nat)
    requires 0 < m && a == m * q + r && r < m
    ensures a % m == r
  {
    var d := a / m - q;
    assert a == m * (a / m) + a % m;
    assert m * d == r - a % m by {
      assert m * d == m * (a / m) - m * q;
    }
    assert d >= 1 ==> m * d >= m;
    assert d <= -1 ==> m * d <= 0 - (m as int);
  }

  function PageAddr(v: nat): nat
  {
    v * 4096
  }

  lemma PageAddrs(u: nat, v: nat)
    ensures PageAddr(v) / 4096 == v && PageAddr(v) % 4096 == 0 && PageAddr(v + 1) == PageAddr(v) + 4096
    ensures (PageAddr(u) == PageAddr(v) <==> u == v) && (v < VPNS ==> PageAddr(v) < MAXVA)
  {}

  /** The first and the last page address of a range. */
  lemma RangeAddrs(va: nat, size: nat)
    requires 0 < size && va + size <= MAXVA
    ensures va / 4096 * 4096 == PageAddr(va / 4096)
    ensures (va + size - 1) / 4096 == va / 4096 + PagesOf(va, size) - 1
    ensures (va + size - 1) / 4096 * 4096 == PageAddr(va / 4096 + PagesOf(va, size) - 1)
    ensures va / 4096 + PagesOf(va, size) <= VPNS
  {}

  lemma GrewCount(mem0: map<nat, Page>, nodes0: map<Node, nat>, free0: seq<nat>, mem: map<nat, Page>,
                  nodes: map<Node, nat>, free: seq<nat>)
    requires Grew(mem0, nodes0, free0, mem, nodes, free)
    ensures |free0| + |nodes0| == |free| + |nodes|
  {}

  /** The tables of `now` are those of `before` and some of `more`. */
  ghost predicate Within(before: map<Node, nat>, now: map<Node, nat>, more: set<Node>)
  {
    before.Keys <= now.Keys <= before.Keys + more
  }

  /** How many tables mapping n pages from lo on still needs. */
  ghost function Missing(lo: nat, n: nat, nodes: map<Node, nat>): nat
  {
    |Needed(lo, n) - nodes.Keys|
  }

  /** Exactly the tables for the first k pages have been added. */
  ghost predicate Reached(lo: nat, k: nat, before: map<Node, nat>, now: map<Node, nat>)
  {
    now.Keys == before.Keys + Needed(lo, k)
  }

  lemma WithinStep(level: nat, v: nat, nodes0: map<Node, nat>, nodes1: map<Node, nat>, nodes2: map<Node, nat>)
    requires Within(nodes0, nodes1, Path(v)) && 1 <= level < 3 && Within(nodes1, nodes2, {TableOf(level - 1, v)})
    ensures Within(nodes0, nodes2, Path(v))
  {
    hide TableOf;
    assert TableOf(level - 1, v) in Path(v);
  }

  lemma GrewNone(mem: map<nat, Page>, nodes: map<Node, nat>, free: seq<nat>, lo: nat)
    ensures Grew(mem, nodes, free, mem, nodes, free) && Reached(lo, 0, nodes, nodes)
  {}

  lemma ReachedStep(lo: nat, k: nat, before: map<Node, nat>, now: map<Node, nat>, now': map<Node, nat>)
    requires Reached(lo, k, before, now) && Within(now, now', Path(lo + k)) && TableOf(0, lo + k) in now'
    requires TableOf(1, lo + k) in now'
    ensures Reached(lo, k + 1, before, now')
  {
    assert now'.Keys == now.Keys + Path(lo + k);
  }

  lemma ReachedAll(lo: nat, n: nat, before: map<Node, nat>, now: map<Node, nat>, free0: nat, free1: nat)
    requires Reached(lo, n, before, now) && free0 + |before| == free1 + |now|
    ensures Within(before, now, Needed(lo, n)) && free0 >= Missing(lo, n, before)
  {
    assert |before| == |before.Keys| && |now| == |now.Keys|;
    EnoughPages(before.Keys, now.Keys, Needed(lo, n), free0, free1, true);
  }

  /** A walk that failed left out a table that page lo + k needs, so the pages did not suffice. */
  lemma RanOut(lo: nat, k: nat, n: nat, before: map<Node, nat>, mid: map<Node, nat>, now: map<Node, nat>, free0: nat)
    requires k < n && TableOf(0, lo + k) !in now && Reached(lo, k, before, mid) && Within(mid, now, Path(lo + k))
    requires free0 + |before| == |now|
    ensures Within(before, now, Needed(lo, n)) && free0 < Missing(lo, n, before)
  {
    NeededMonotone(lo, k + 1, n);
    assert Needed(lo, k + 1) == Needed(lo, k) + Path(lo + k);
    LeftOut(before.Keys, Needed(lo, k), Path(lo + k), Needed(lo, n), mid.Keys, now.Keys, TableOf(0, lo + k));
    hide Needed, TableOf;
    assert |before| == |before.Keys| && |now| == |now.Keys|;
    EnoughPages(before.Keys, now.Keys, Needed(lo, n), free0, 0, false);
  }

  lemma SameReached(lo: nat, k: nat, before: map<Node, nat>, mid: map<Node, nat>, now: map<Node, nat>)
    requires Reached(lo, k, before, mid) && now.Keys == mid.Keys
    ensures Reached(lo, k, before, now)
  {}

  lemma WithinMore(lo: nat, k: nat, n: nat, before: map<Node, nat>, now: map<Node, nat>)
    requires Within(before, now, Needed(lo, k)) && k <= n
    ensures Within(before, now, Needed(lo, n))
  {
    NeededMonotone(lo, k, n);
  }

  lemma MissingMonotone(lo: nat, k: nat, n: nat, nodes: map<Node, nat>)
    requires k <= n
    ensures Missing(lo, k, nodes) <= Missing(lo, n, nodes)
  {
    NeededMonotone(lo, k, n);
    CardMonotone(Needed(lo, k) - nodes.Keys, Needed(lo, n) - nodes.Keys);
  }

  lemma LeftOut(before: set<Node>, some: set<Node>, path: set<Node>, all: set<Node>, mid: set<Node>, now: set<Node>,
                t: Node)
    requires mid == before + some && mid <= now <= mid + path && some + path <= all && t in path && t !in now
    ensures before <= now <= before + all && now != before + all
  {}

  lemma LinkGrew(mem: map<nat, Page>, nodes: map<Node, nat>, free: seq<nat>, x: Node, i: nat, page: nat,
                 mem': map<nat, Page>, free': seq<nat>)
    requires Linked(mem, nodes, x, i, page, mem') && free == [page] + free'
    ensures Grew(mem, nodes, free, mem', nodes[Child(x, i) := page], free')
  {
    var nodes' := nodes[Child(x, i) := page];
    assert nodes'[Child(x, i)] in nodes'.Values && nodes'[x] in nodes'.Values;
  }

  lemma RootTree(mem: map<nat, Page>, page: nat)
    requires page in mem && mem[page] == ZeroPage() && TablePage(page)
    ensures Tree(mem, map[Root := page], page)
    ensures forall v :: 0 <= v < VPNS ==> Leaf(mem, map[Root := page], v) == 0
  {
    assert forall i :: 0 <= i < 512 ==> Entry(mem, map[Root := page], Root, i);
  }

  /** How mappages ends: two of its outcomes are panics, on a mapped page and on size 0. */
  datatype MapResult = Mapped | NoMemory | Remap | NoSize

  class KernelVm {
    const pm: PhysMem
    var kernel_pagetable: nat
    ghost var nodes: map<Node, nat>

    /** The table pages form a tree and none of them is free. */
    ghost predicate Valid()
      reads this, pm
    {
      pm.Valid() && Tree(pm.mem, nodes, kernel_pagetable) &&
      (forall x :: x in nodes ==> Frame(pm.end_address, nodes[x]) && nodes[x] !in pm.free)
    }

    /** The leaf entry for page v, 0 when no leaf table covers it. */
    ghost function Pte(v: nat): u64
      requires Valid()
      reads this, pm
    {
      Leaf(pm.mem, nodes, v)
    }

    /** kvmininit's first step: a cleared root table. */
    constructor Root(m: PhysMem)
      requires m.Valid() && m.free != [] && KERNBASE <= m.end_address
      modifies m`mem, m`free_mem_list, m`free
      ensures Valid() && pm == m && fresh(this) && nodes.Keys == {Node.Root}
      ensures old(m.free) == [kernel_pagetable] + m.free && m.mem.Keys == old(m.mem.Keys)
      ensures forall v :: 0 <= v < VPNS ==> Pte(v) == 0
      ensures forall q :: q in m.mem && q != kernel_pagetable ==> m.mem[q] == old(m.mem[q])
    {
      pm := m;
      new;
      hide PhysMem.Valid, Tree, Leaf;
      kernel_pagetable := m.Kalloc();
      m.ClearPage(kernel_pagetable);
      nodes := map[Node.Root := kernel_pagetable];
      RootTree(m.mem, kernel_pagetable);
    }

    /** kalloc never hands out a table: the tree and its translations stay as they are. */
    method Kalloc() returns (page: nat)
      requires Valid()
      modifies pm`mem, pm`free_mem_list, pm`free
      ensures Valid() && pm.mem.Keys == old(pm.mem.Keys)
      ensures page == 0 <==> old(pm.free) == []
      ensures page == 0 ==> pm.mem == old(pm.mem) && pm.free == []
      ensures page != 0 ==>
        old(pm.free) == [page] + pm.free && page !in pm.free && page !in nodes.Values && page in pm.mem
      ensures page != 0 ==> Frame(pm.end_address, page) && TablePage(page) && pm.mem[page] == ZeroPage()
      ensures forall q :: q in pm.mem && q != page ==> pm.mem[q] == old(pm.mem[q])
      ensures forall v :: 0 <= v < VPNS ==> Pte(v) == old(Pte(v))
    {
      EndPositive();
      hide Tree, PhysMem.Valid, Leaf;
      page := pm.Kalloc();
      TreeFrame(old(pm.mem), pm.mem, nodes, kernel_pagetable);
    }

    /** kfree of a page that is not a table leaves the tree and its translations as they are. */
    method Kfree(pa: nat)
      requires Valid() && Frame(pm.end_address, pa) && pa !in pm.free && pa !in nodes.Values
      modifies pm`mem, pm`free_mem_list, pm`free
      ensures Valid() && pm.mem.Keys == old(pm.mem.Keys) && pm.free == [pa] + old(pm.free)
      ensures forall q :: q in pm.mem && q != pa ==> pm.mem[q] == old(pm.mem[q])
      ensures forall v :: 0 <= v < VPNS ==> Pte(v) == old(Pte(v))
    {
      EndPositive();
      hide Tree, PhysMem.Valid, Leaf, Frame;
      pm.Kfree(pa);
      TreeFrame(old(pm.mem), pm.mem, nodes, kernel_pagetable);
    }

    /** fork's copy of a trapframe page, with word `idx` of the copy then set to w. */
    method CopyAndSet(dst: nat, src: nat, idx: nat, w: u64)
      requires Valid() && dst in pm.mem && src in pm.mem && dst !in pm.free && dst !in nodes.Values && idx < 512
      modifies pm`mem
      ensures Valid() && pm.mem.Keys == old(pm.mem.Keys) && pm.mem[dst] == old(pm.mem[src])[idx := w]
      ensures forall q :: q in pm.mem && q != dst ==> pm.mem[q] == old(pm.mem[q])
      ensures forall v :: 0 <= v < VPNS ==> Pte(v) == old(Pte(v))
    {
      EndPositive();
      hide Tree, PhysMem.Valid, Leaf;
      pm.CopyPage(dst, src);
      pm.Store(dst, idx, w);
      TreeFrame(old(pm.mem), pm.mem, nodes, kernel_pagetable);
    }

    /** A store to an allocated page that is not a table. */
    method StoreWord(pa: nat, idx: nat, w: u64)
      requires Valid() && pa in pm.mem && pa !in pm.free && pa !in nodes.Values && idx < 512
      modifies pm`mem
      ensures Valid() && pm.mem == old(pm.mem)[pa := old(pm.mem)[pa][idx := w]]
      ensures forall v :: 0 <= v < VPNS ==> Pte(v) == old(Pte(v))
    {
      EndPositive();
      hide Tree, PhysMem.Valid, Leaf;
      pm.Store(pa, idx, w);
      TreeFrame(old(pm.mem), pm.mem, nodes, kernel_pagetable);
    }

    /** What the word at address a becomes by *(int *)a = v spares the free list and the tree. */
    ghost predicate StoreSpares(a: nat, v: int)
      requires PageOf(a) in pm.mem
      reads this, pm
    {
      var pg, idx := PageOf(a), WordOf(a);
      var w := PutInt(pm.mem[pg][idx], a, v);
      (pg in pm.free && idx == 0 ==> w == pm.mem[pg][0]) && TreeSpared(pm.mem, nodes, pg, idx, w)
    }

    /**
     A store of an int through any address of memory keeps the allocator and the page table
     valid exactly when StoreSpares; outside the tables it changes no translation.
     */
    method StoreInt(a: nat, v: int)
      requires Valid() && PageOf(a) in pm.mem
      modifies pm`mem
      ensures pm.mem == IntStored(old(pm.mem), a, v) && a - a % 4096 in pm.mem && pm.mem.Keys == old(pm.mem.Keys)
      ensures a % 4 == 0 ==>
        var w, w0 := pm.mem[a - a % 4096][a % 4096 / 8], old(pm.mem)[a - a % 4096][a % 4096 / 8];
        if a % 8 == 0
        then w % 0x1_0000_0000 == v % 0x1_0000_0000 && w / 0x1_0000_0000 == w0 / 0x1_0000_0000
        else w / 0x1_0000_0000 == v % 0x1_0000_0000 && w % 0x1_0000_0000 == w0 % 0x1_0000_0000
      ensures a % 4 == 0 ==> forall q, i ::
        q in pm.mem && 0 <= i < 512 && !(q == a - a % 4096 && i == a % 4096 / 8) ==>
          pm.mem[q][i] == old(pm.mem)[q][i]
      ensures Valid() <==> old(StoreSpares(a, v))
      ensures PageOf(a) !in nodes.Values && Valid() ==> forall u :: 0 <= u < VPNS ==> Pte(u) == old(Pte(u))
    {
      hide Chain, Tree, TreeSpared, PutInt, Leaf;
      ghost var mem0, pg, idx := pm.mem, PageOf(a), WordOf(a);
      StoreChain(mem0, pm.free_mem_list, pm.free, pg, idx, PutInt(mem0[pg][idx], a, v));
      StoreTree(mem0, nodes, kernel_pagetable, pg, idx, PutInt(mem0[pg][idx], a, v));
      pm.StoreInt(a, v);
      if PageOf(a) !in nodes.Values {
        NodesInMem(mem0);
        TreeFrame(mem0, pm.mem, nodes, kernel_pagetable);
      }
    }

    lemma NodesInMem(mem: map<nat, Page>)
      requires Tree(mem, nodes, kernel_pagetable)
      ensures forall x :: x in nodes ==> nodes[x] in mem && nodes[x] in nodes.Values
    {}

    /** A page that is neither free nor a table may be written at will. */
    lemma PlainPageSpares(a: nat, v: int)
      requires PageOf(a) in pm.mem && PageOf(a) !in pm.free && PageOf(a) !in nodes.Values
      ensures StoreSpares(a, v)
    {
      assert forall x :: x in nodes ==> nodes[x] in nodes.Values;
    }

    /** Clearing an allocated page that is not a table. */
    method ClearData(pa: nat)
      requires Valid() && pa in pm.mem && pa !in pm.free && pa !in nodes.Values
      modifies pm`mem
      ensures Valid() && pm.mem == old(pm.mem)[pa := ZeroPage()]
      ensures forall v :: 0 <= v < VPNS ==> Pte(v) == old(Pte(v))
    {
      EndPositive();
      hide Tree, PhysMem.Valid, Leaf;
      pm.ClearPage(pa);
      TreeFrame(old(pm.mem), pm.mem, nodes, kernel_pagetable);
    }

    /** A page for a new table: kalloc's, cleared once more. */
    method NewPage() returns (page: nat)
      requires Valid()
      modifies pm`mem, pm`free_mem_list, pm`free
      ensures Valid()
      ensures page == 0 <==> old(pm.free) == []
      ensures page == 0 ==> pm.mem == old(pm.mem) && pm.free == []
      ensures page != 0 ==>
        old(pm.free) == [page] + pm.free && page !in pm.free && page !in nodes.Values && page in old(pm.mem)
      ensures page != 0 ==> Frame(pm.end_address, page) && TablePage(page) && pm.mem == old(pm.mem)[page := ZeroPage()]
      ensures forall v :: 0 <= v < VPNS ==> Pte(v) == old(Pte(v))
    {
      page := Kalloc();
      if page != 0 {
        EndPositive();
        hide Tree, PhysMem.Valid, Leaf, Frame, TablePage;
        ghost var mem1 := pm.mem;
        pm.ClearPage(page);
        TreeFrame(mem1, pm.mem, nodes, kernel_pagetable);
        assert pm.mem == old(pm.mem)[page := ZeroPage()];
      }
    }

    lemma EndPositive()
      requires Valid()
      ensures 0 < pm.end_address && (forall x :: x in nodes ==> nodes[x] in pm.mem)
      ensures (forall i :: 0 <= i < |pm.free| ==> pm.free[i] in pm.mem)
    {}

    /** One missing table of a walk: take a page, clear it, and point entry i of table x at it. */
    method AddTable(ghost x: Node, pagetable: nat, i: nat) returns (page: nat)
      requires Valid() && x in nodes && nodes[x] == pagetable && !x.Low? && i < 512 && Child(x, i) !in nodes
      modifies pm`mem, pm`free_mem_list, pm`free, this`nodes
      ensures Valid() && Grew(old(pm.mem), old(nodes), old(pm.free), pm.mem, nodes, pm.free)
      ensures page == 0 <==> old(pm.free) == []
      ensures page == 0 ==> nodes == old(nodes) && pm.free == []
      ensures page != 0 ==> nodes == old(nodes)[Child(x, i) := page]
      ensures forall v :: 0 <= v < VPNS ==> Pte(v) == old(Pte(v))
    {
      hide Valid, Pte, Grew, Pa2Pte, TablePage, Frame;
      page := NewPage();
      if page != 0 {
        TableInMem(x);
        assert pm.mem[page := ZeroPage()] == pm.mem;
        LinkTable(x, pagetable, i, page);
        LinkGrew(old(pm.mem), old(nodes), old(pm.free), x, i, page, pm.mem, pm.free);
      } else {
        GrewNone(pm.mem, nodes, pm.free, 0);
      }
    }

    /** *pte = PA2PTE(page) | PTE_V for a cleared page. */
    method LinkTable(ghost x: Node, pagetable: nat, i: nat, page: nat)
      requires Valid() && x in nodes && nodes[x] == pagetable && !x.Low? && i < 512 && Child(x, i) !in nodes
      requires Frame(pm.end_address, page) && TablePage(page) && page in pm.mem && page !in pm.free
      requires page !in nodes.Values
      requires pm.mem[page] == ZeroPage()
      modifies pm`mem, this`nodes
      ensures Valid() && nodes == old(nodes)[Child(x, i) := page]
      ensures pagetable in pm.mem.Keys
      ensures pm.mem == old(pm.mem)[pagetable := old(pm.mem)[pagetable][i := Pa2Pte(page) + 1]]
      ensures forall v :: 0 <= v < VPNS ==> Pte(v) == old(Pte(v))
    {
      TableInMem(x);
      hide Tree, PhysMem.Valid, Leaf, Pa2Pte, TablePage;
      pm.Store(pagetable, i, Pa2Pte(page) + 1);
      assert pm.mem == old(pm.mem)[page := ZeroPage()][pagetable := old(pm.mem)[pagetable][i := Pa2Pte(page) + 1]];
      AddNode(old(pm.mem), nodes, kernel_pagetable, x, i, page, pm.mem);
      AddNodeLeaves(old(pm.mem), nodes, kernel_pagetable, x, i, page, pm.mem);
      nodes := nodes[Child(x, i) := page];
    }

    /** walk: the leaf entry of va as (table, index); a null table when there is none. */
    method Walk(va: nat, alloc: bool) returns (pg: nat, idx: nat)
      requires Valid() && va < MAXVA
      modifies pm`mem, pm`free_mem_list, pm`free, this`nodes
      ensures Valid() && Grew(old(pm.mem), old(nodes), old(pm.free), pm.mem, nodes, pm.free)
      ensures pg != 0 <==> TableOf(0, va / 4096) in nodes
      ensures pg != 0 ==> pg == nodes[TableOf(0, va / 4096)] && idx == va / 4096 % 512
      ensures !alloc ==> nodes == old(nodes) && pm.mem == old(pm.mem) && pm.free == old(pm.free)
      ensures pg == 0 && alloc ==> pm.free == []
      ensures Within(old(nodes), nodes, Path(va / 4096))
      ensures forall v :: 0 <= v < VPNS ==> Pte(v) == old(Pte(v))
    {
      hide Valid, Pte, Grew, PX, Path, TableOf, Within;
      ghost var v := va / 4096;
      RootTable(v);
      GrewNone(pm.mem, nodes, pm.free, v);
      var pagetable := kernel_pagetable;
      var level := 2;
      while level > 0
        invariant 0 <= level <= 2 && Valid() && TableOf(level, v) in nodes && pagetable == nodes[TableOf(level, v)]
        invariant Grew(old(pm.mem), old(nodes), old(pm.free), pm.mem, nodes, pm.free)
        invariant Within(old(nodes), nodes, Path(v))
        invariant !alloc ==> nodes == old(nodes) && pm.mem == old(pm.mem) && pm.free == old(pm.free)
        invariant forall u :: 0 <= u < VPNS ==> Pte(u) == old(Pte(u))
      {
        ghost var mem1, nodes1, free1 := pm.mem, nodes, pm.free;
        pagetable := Descend(pagetable, level, va, alloc);
        WithinStep(level, v, old(nodes), nodes1, nodes);
        GrewTrans(old(pm.mem), old(nodes), old(pm.free), mem1, nodes1, free1, pm.mem, nodes, pm.free);
        if pagetable == 0 {
          return 0, 0;
        }
        level := level - 1;
      }
      WalkEnd(va);
      return pagetable, PX(0, va);
    }

    /** One turn of walk's loop: the table below `pagetable` on the way to va, or null. */
    method Descend(pagetable: nat, level: nat, va: nat, alloc: bool) returns (next: nat)
      requires Valid() && 1 <= level < 3 && va < MAXVA && TableOf(level, va / 4096) in nodes
      requires pagetable == nodes[TableOf(level, va / 4096)]
      modifies pm`mem, pm`free_mem_list, pm`free, this`nodes
      ensures Valid() && Grew(old(pm.mem), old(nodes), old(pm.free), pm.mem, nodes, pm.free)
      ensures next != 0 ==> TableOf(level - 1, va / 4096) in nodes && next == nodes[TableOf(level - 1, va / 4096)]
      ensures next == 0 ==> TableOf(0, va / 4096) !in nodes && (alloc ==> pm.free == [])
      ensures !alloc ==> nodes == old(nodes) && pm.mem == old(pm.mem) && pm.free == old(pm.free)
      ensures Within(old(nodes), nodes, {TableOf(level - 1, va / 4096)})
      ensures forall v :: 0 <= v < VPNS ==> Pte(v) == old(Pte(v))
    {
      hide Valid, Pte, Grew, TableOf, PX, V, Pte2Pa, Child;
      WalkStep(level, va);
      GrewNone(pm.mem, nodes, pm.free, 0);
      var i := PX(level, va);
      if V(pm.mem[pagetable][i]) {
        next := Pte2Pa(pm.mem[pagetable][i]);
      } else {
        next := 0;
        if alloc {
          next := AddTable(TableOf(level, va / 4096), pagetable, i);
        }
      }
    }

    lemma WalkStep(level: nat, va: nat)
      requires Valid() && 1 <= level < 3 && va < MAXVA && TableOf(level, va / 4096) in nodes
      ensures var x := TableOf(level, va / 4096);
        !x.Low? && nodes[x] in pm.mem && nodes[x] != 0 && Child(x, PX(level, va)) == TableOf(level - 1, va / 4096)
      ensures var w := pm.mem[nodes[TableOf(level, va / 4096)]][PX(level, va)];
        (V(w) <==> TableOf(level - 1, va / 4096) in nodes) &&
        (V(w) ==> Pte2Pa(w) == nodes[TableOf(level - 1, va / 4096)] && Pte2Pa(w) != 0)
      ensures TableOf(level - 1, va / 4096) !in nodes ==> TableOf(0, va / 4096) !in nodes
    {
      var v := va / 4096;
      var x, i := TableOf(level, v), PX(level, va);
      ChildIndex(level, va);
      assert Parent(TableOf(0, v)) == TableOf(1, v) && Parent(TableOf(1, v)) == Node.Root;
      hide PX, Pte2Pa, Pa2Pte, TableOf, V, TablePage, Chain, Distinct, PhysMem.Valid;
      assert Entry(pm.mem, nodes, x, i);
      assert TablePage(nodes[x]);
      if Child(x, i) in nodes {
        PointerEntry(nodes[Child(x, i)]);
        PointerBack(nodes[Child(x, i)]);
        NonzeroPage(nodes[Child(x, i)]);
      }
      NonzeroPage(nodes[x]);
    }

    lemma WalkEnd(va: nat)
      requires Valid() && va < MAXVA && TableOf(0, va / 4096) in nodes
      ensures nodes[TableOf(0, va / 4096)] in pm.mem && nodes[TableOf(0, va / 4096)] != 0
      ensures PX(0, va) == va / 4096 % 512
    {
      IndicesOf(va);
      assert Parent(TableOf(0, va / 4096)) == TableOf(1, va / 4096);
    }

    /** *pte = w, for the entry walk returned. */
    method SetPte(ghost v: nat, pg: nat, idx: nat, w: u64)
      requires Valid() && v < VPNS && TableOf(0, v) in nodes && pg == nodes[TableOf(0, v)] && idx == v % 512
      modifies pm`mem
      ensures Valid() && Grew(old(pm.mem), nodes, pm.free, pm.mem, nodes, pm.free)
      ensures forall u :: 0 <= u < VPNS ==> Pte(u) == if u == v then w else old(Pte(u))
    {
      TableInMem(TableOf(0, v));
      hide Tree, PhysMem.Valid, TableOf, Leaf;
      pm.Store(pg, idx, w);
      SetLeaf(old(pm.mem), nodes, kernel_pagetable, v, w);
      assert nodes[TableOf(0, v)] in nodes.Values;
    }

    /** One turn of mappages' loop; Remap is the panic on an entry that is already valid. */
    method MapOne(a: nat, pa: u64, perm: nat) returns (r: MapResult)
      requires Valid() && a < MAXVA && a % 4096 == 0 && perm < 1024
      modifies pm`mem, pm`free_mem_list, pm`free, this`nodes
      ensures Valid() && Grew(old(pm.mem), old(nodes), old(pm.free), pm.mem, nodes, pm.free)
      ensures Within(old(nodes), nodes, Path(a / 4096)) && r != NoSize
      ensures r == Mapped ==> TableOf(0, a / 4096) in nodes && TableOf(1, a / 4096) in nodes
      ensures r == NoMemory ==> pm.free == [] && TableOf(0, a / 4096) !in nodes
      ensures r == Remap <==> V(old(Pte(a / 4096)))
      ensures r == Remap ==> nodes.Keys == old(nodes.Keys)
      ensures forall v :: 0 <= v < VPNS ==>
        Pte(v) == if r == Mapped && v == a / 4096 then MakePte(pa, perm) else old(Pte(v))
    {
      hide Valid, Grew, Pte, Path, TableOf, MakePte, V;
      ValidHasTables(a / 4096);
      var pg, idx := Walk(a, true);
      if pg == 0 {
        MissingIsInvalid(a / 4096);
        return NoMemory;
      }
      LeafOf(a);
      if V(pm.mem[pg][idx]) {
        return Remap;
      }
      ghost var mem1 := pm.mem;
      TablesOnPath(a / 4096);
      SetPte(a / 4096, pg, idx, MakePte(pa, perm));
      GrewTrans(old(pm.mem), old(nodes), old(pm.free), mem1, nodes, pm.free, pm.mem, nodes, pm.free);
      r := Mapped;
    }

    /** A valid leaf entry has all its tables, so a walk to it adds none. */
    lemma ValidHasTables(v: nat)
      requires Valid() && v < VPNS
      ensures V(Pte(v)) ==>
        forall now: map<Node, nat> {:trigger Within(nodes, now, Path(v))} ::
          Within(nodes, now, Path(v)) ==> now.Keys == nodes.Keys
    {
      if V(Pte(v)) {
        MappedHasTable(v);
        TablesOnPath(v);
      }
    }

    lemma MissingIsInvalid(v: nat)
      requires Valid() && TableOf(0, v) !in nodes
      ensures !V(Pte(v))
    {}

    /** mappages' loop, over the page addresses first .. last; k pages have been mapped when it ends. */
    method MapLoop(pa: u64, first: nat, last: nat, perm: nat, ghost lo: nat, ghost n: nat)
      returns (r: MapResult, ghost k: nat)
      requires Valid() && 0 < n && lo + n <= VPNS && first == PageAddr(lo) && last == PageAddr(lo + n - 1)
      requires perm < 1024
      modifies pm`mem, pm`free_mem_list, pm`free, this`nodes
      ensures Valid() && Grew(old(pm.mem), old(nodes), old(pm.free), pm.mem, nodes, pm.free)
      ensures Within(old(nodes), nodes, Needed(lo, n)) && r != NoSize && k <= n && (r == Mapped <==> k == n)
      ensures forall v :: lo <= v < lo + k ==> !V(old(Pte(v)))
      ensures r == Remap ==> V(old(Pte(lo + k)))
      ensures r == NoMemory ==> pm.free == [] && |old(pm.free)| < Missing(lo, k + 1, old(nodes))
      ensures r != NoMemory ==> |old(pm.free)| >= Missing(lo, k, old(nodes))
      ensures forall v :: 0 <= v < VPNS ==> Pte(v) == Extended(lo, k, pa, perm, v, old(Pte(v)))
    {
      hide Valid, Grew, Pte, Path, TableOf, MakePte, Needed, Reached, Within, Missing, PageAddr, PaOf, V, Extended;
      ghost var mem0, nodes0, free0 := pm.mem, nodes, pm.free;
      ExtendedNone(lo, pa, perm);
      GrewNone(mem0, nodes0, free0, lo);
      NextPa(pa, 0);
      var a, p := first, pa;
      k := 0;
      while true
        invariant k < n && a == PageAddr(lo + k) && p == PaOf(pa, k)
        invariant Valid() && Grew(mem0, nodes0, free0, pm.mem, nodes, pm.free) && Reached(lo, k, nodes0, nodes)
        invariant forall v :: lo <= v < lo + k ==> !V(old(Pte(v)))
        invariant forall v :: 0 <= v < VPNS ==> Pte(v) == Extended(lo, k, pa, perm, v, old(Pte(v)))
        decreases n - k
      {
        ghost var mem1, nodes1, free1 := pm.mem, nodes, pm.free;
        PageAddrs(lo + n - 1, lo + k);
        ExtendedStep(lo, k, pa, perm);
        r := MapOne(a, p, perm);
        GrewTrans(mem0, nodes0, free0, mem1, nodes1, free1, pm.mem, nodes, pm.free);
        GrewCount(mem0, nodes0, free0, pm.mem, nodes, pm.free);
        if r == NoMemory {
          RanOut(lo, k, k + 1, nodes0, nodes1, nodes, |free0|);
          WithinMore(lo, k + 1, n, nodes0, nodes);
          return;
        }
        if r == Remap {
          SameReached(lo, k, nodes0, nodes1, nodes);
          ReachedAll(lo, k, nodes0, nodes, |free0|, |pm.free|);
          WithinMore(lo, k, n, nodes0, nodes);
          return;
        }
        ReachedStep(lo, k, nodes0, nodes1, nodes);
        k := k + 1;
        if a == last {
          break;
        }
        NextPa(pa, k - 1);
        a, p := a + PGSIZE, (p + PGSIZE) % 0x1_0000_0000_0000_0000;
      }
      GrewCount(mem0, nodes0, free0, pm.mem, nodes, pm.free);
      ReachedAll(lo, n, nodes0, nodes, |free0|, |pm.free|);
      r := Mapped;
    }

    /**
     mappages on any range below MAXVA. It maps the pages in order and stops at the end, at
     the panic on the first page that already was mapped, or when memory runs out, and
     exactly the k pages before that are added. It succeeds exactly when no page of the range
     was mapped and the tables still missing fit in the free pages.
     */
    method MapPages(pa: u64, va: nat, size: nat, perm: nat) returns (r: MapResult, ghost k: nat)
      requires Valid() && va + size <= MAXVA && perm < 1024
      modifies pm`mem, pm`free_mem_list, pm`free, this`nodes
      ensures Valid() && Grew(old(pm.mem), old(nodes), old(pm.free), pm.mem, nodes, pm.free)
      ensures (r == NoSize <==> size == 0) && (r == NoSize ==> k == 0)
      ensures forall v :: 0 <= v < VPNS ==> Pte(v) == Extended(va / 4096, k, pa, perm, v, old(Pte(v)))
      ensures forall v :: va / 4096 <= v < va / 4096 + k ==> !V(old(Pte(v)))
      ensures size > 0 ==>
        k <= PagesOf(va, size) && (r == Mapped <==> k == PagesOf(va, size)) &&
        Within(old(nodes), nodes, Needed(va / 4096, PagesOf(va, size)))
      ensures r == Remap ==> V(old(Pte(va / 4096 + k)))
      ensures r == NoMemory ==> pm.free == [] && |old(pm.free)| < Missing(va / 4096, k + 1, old(nodes))
      ensures r != NoMemory && size > 0 ==> |old(pm.free)| >= Missing(va / 4096, k, old(nodes))
      ensures size > 0 ==> (r == Mapped <==>
        (forall v :: va / 4096 <= v <= (va + size - 1) / 4096 ==> !V(old(Pte(v)))) &&
        |old(pm.free)| >= Missing(va / 4096, PagesOf(va, size), old(nodes)))
    {
      hide Valid, Grew, Pte, Needed, Within, Missing, V, PagesOf, PageAddr, MakePte, PaOf;
      if size == 0 {
        GrewNone(pm.mem, nodes, pm.free, 0);
        return NoSize, 0;
      }
      ghost var lo, n := va / 4096, PagesOf(va, size);
      RangeAddrs(va, size);
      r, k := MapLoop(pa, va / 4096 * 4096, (va + size - 1) / 4096 * 4096, perm, lo, n);
      if r == NoMemory {
        MissingMonotone(lo, k + 1, n, old(nodes));
      }
    }

    lemma TableInMem(x: Node)
      requires Valid() && x in nodes
      ensures nodes[x] in pm.mem && nodes[x] !in pm.free
    {}

    lemma RootTable(v: nat)
      requires Valid()
      ensures TableOf(2, v) in nodes && kernel_pagetable == nodes[TableOf(2, v)] && Within(nodes, nodes, Path(v))
    {}

    /** A page with a valid entry has its leaf table. */
    lemma MappedHasTable(v: nat)
      requires Valid() && Pte(v) != 0
      ensures TableOf(0, v) in nodes
    {}

    lemma TablesOnPath(v: nat)
      requires Valid() && TableOf(0, v) in nodes
      ensures TableOf(1, v) in nodes
    {
      assert Parent(TableOf(0, v)) == TableOf(1, v);
    }

    lemma LeafOf(va: nat)
      requires Valid() && va < MAXVA && TableOf(0, va / 4096) in nodes
      ensures nodes[TableOf(0, va / 4096)] in pm.mem
      ensures Pte(va / 4096) == pm.mem[nodes[TableOf(0, va / 4096)]][va / 4096 % 512]
    {}
  }

  // ---------------------------------------------------------------- the kernel's map

  const UART0: nat := 0x1000_0000
  const VIRTIO0: nat := 0x1000_1000
  const PLIC: nat := 0x0c00_0000

  /** What kvmininit promises for page v: the five identity-mapped ranges and their permissions. */
  function KernelPte(etext: nat, v: nat): u64
  {
    if v == 0x10000 || v == 0x10001 || 0xc000 <= v < 0xc400 || etext / 4096 <= v < 0x88000
    then MakePte(PaOf(0, v), PTE_R + PTE_W)
    else if 0x80000 <= v < etext / 4096 then MakePte(PaOf(0, v), PTE_R + PTE_X)
    else 0
  }

  function DataTables(k: nat): set<Node>
  {
    if k == 0 then {} else DataTables(k - 1) + {Low(2, k - 1)}
  }

  lemma {:induction false} DataTablesCard(k: nat)
    ensures |DataTables(k)| == k && forall j: nat :: Low(2, j) in DataTables(k) <==> j < k
    ensures forall x :: x in DataTables(k) ==> x.Low? && x.i2 == 2
  {
    if k > 0 {
      DataTablesCard(k - 1);
    }
  }

  /** The seventy tables of the kernel's map. */
  function KernelTables(): set<Node>
  {
    DeviceTables() + DataTables(64)
  }

  function DeviceTables(): set<Node>
  {
    {Root, Mid(0), Mid(2), Low(0, 96), Low(0, 97), Low(0, 128)}
  }

  lemma KernelTablesCard()
    ensures |KernelTables()| == 70
  {
    hide DataTables;
    DataTablesCard(64);
    DeviceTablesCard();
    assert DeviceTables() !! DataTables(64);
  }

  lemma DeviceTablesCard()
    ensures |DeviceTables()| == 6
  {
    var a := {Root, Mid(0), Mid(2)};
    var b := {Low(0, 96), Low(0, 97), Low(0, 128)};
    assert DeviceTables() == a + b && a !! b && |a| == 3 && |b| == 3;
  }

  lemma {:induction false} NeededIn(lo: nat, n: nat, s: set<Node>)
    requires forall v :: lo <= v < lo + n ==> Path(v) <= s
    ensures Needed(lo, n) <= s
  {
    if n > 0 {
      NeededIn(lo, n - 1, s);
    }
  }

  /** The pages of the UART, the virtio disk, the PLIC, and main memory. */
  predicate KernelPage(v: nat)
  {
    v == 0x10000 || v == 0x10001 || 0xc000 <= v < 0xc400 || 0x80000 <= v < 0x88000
  }

  lemma KernelPath(v: nat)
    requires KernelPage(v)
    ensures Path(v) <= KernelTables()
  {
    hide DataTables;
    DataTablesCard(64);
    KernelIndices(v);
    var i2, i1 := v / 262144, v / 512 % 512;
    hide KernelPage;
    assert Mid(i2) in DeviceTables();
    if i2 == 2 {
      assert Low(2, i1) in DataTables(64);
    } else {
      assert Low(0, i1) in DeviceTables();
    }
  }

  lemma KernelIndices(v: nat)
    requires KernelPage(v)
    ensures (v / 262144 == 2 && v / 512 % 512 < 64) || (v / 262144 == 0 && v / 512 % 512 in {96, 97, 128})
  {
    var t := v / 512;
    if 0x80000 <= v {
      assert 1024 <= t < 1088 && t % 512 == t - 1024;
    } else {
      assert t == 96 || t == 97 || t == 128;
    }
  }

  /** While seventy pages are free or already tables, no range of the kernel's map runs out. */
  lemma RangeFits(lo: nat, n: nat, nodes: map<Node, nat>, free: nat)
    requires forall v :: lo <= v < lo + n ==> KernelPage(v)
    requires nodes.Keys <= KernelTables() && free + |nodes| >= 70
    ensures free >= Missing(lo, n, nodes) && Needed(lo, n) <= KernelTables()
  {
    hide KernelTables, Needed, KernelPage, Path;
    forall v | lo <= v < lo + n
      ensures Path(v) <= KernelTables()
    {
      KernelPath(v);
    }
    NeededIn(lo, n, KernelTables());
    KernelTablesCard();
    CardMonotone(Needed(lo, n) - nodes.Keys, KernelTables() - nodes.Keys);
    assert KernelTables() == nodes.Keys + (KernelTables() - nodes.Keys);
    assert |nodes| == |nodes.Keys|;
  }

  function Identity(lo: nat, hi: nat, perm: nat, v: nat, before: u64): u64
    requires perm < 1024
  {
    if lo <= v < hi then MakePte(PaOf(0, v), perm) else before
  }

  /** The page after the last one that has a byte below a. */
  function PageEnd(a: nat): nat { (a + 4095) / 4096 }

  /** One mappages call of kvmininit: memory suffices, so it can only fail by meeting a mapped page. */
  method MapRange(vm: KernelVm, base: nat, size: nat, perm: nat) returns (r: MapResult)
    requires vm.Valid() && 0 < size && base + size <= PHYSTOP && perm < 1024
    requires forall v :: base / 4096 <= v < PageEnd(base + size) ==> KernelPage(v)
    requires vm.nodes.Keys <= KernelTables() && |vm.pm.free| + |vm.nodes| >= 70
    modifies vm.pm`mem, vm.pm`free_mem_list, vm.pm`free, vm`nodes
    ensures vm.Valid() && Grew(old(vm.pm.mem), old(vm.nodes), old(vm.pm.free), vm.pm.mem, vm.nodes, vm.pm.free)
    ensures vm.nodes.Keys <= KernelTables() && |vm.pm.free| + |vm.nodes| == old(|vm.pm.free| + |vm.nodes|)
    ensures r == Mapped || r == Remap
    ensures V(old(vm.Pte(base / 4096))) ==> r == Remap && forall v :: 0 <= v < VPNS ==> vm.Pte(v) == old(vm.Pte(v))
    ensures base % 4096 == 0 && (forall v :: base / 4096 <= v < PageEnd(base + size) ==> !V(old(vm.Pte(v)))) ==>
      r == Mapped &&
      forall v :: 0 <= v < VPNS ==> vm.Pte(v) == Identity(base / 4096, PageEnd(base + size), perm, v, old(vm.Pte(v)))
  {
    hide KernelVm.Valid, KernelVm.Pte, KernelTables, Needed, Missing, V, MakePte, KernelPage, PagesOf, PaOf, PageEnd,
      Grew, Within, Extended, Identity;
    ghost var lo, n := base / 4096, PagesOf(base, size);
    RangePages(base, size);
    RangeFits(lo, n, vm.nodes, |vm.pm.free|);
    ghost var mem0, nodes0, free0 := vm.pm.mem, vm.nodes, vm.pm.free;
    ghost var k;
    r, k := vm.MapPages(base, base, size, perm);
    GrewCount(mem0, nodes0, free0, vm.pm.mem, vm.nodes, vm.pm.free);
    if r == NoMemory {
      MissingMonotone(lo, k + 1, n, nodes0);
    }
    WithinKernel(lo, n, nodes0, vm.nodes);
    ExtendedIdentity(base, size, perm);
  }

  lemma WithinKernel(lo: nat, n: nat, before: map<Node, nat>, now: map<Node, nat>)
    requires Within(before, now, Needed(lo, n)) && Needed(lo, n) <= KernelTables() && before.Keys <= KernelTables()
    ensures now.Keys <= KernelTables()
  {
    hide KernelTables, Needed;
  }

  /** What mappages adds for a whole range at base is the identity, and for no page it is nothing. */
  lemma ExtendedIdentity(base: nat, size: nat, perm: nat)
    requires 0 < size && base + size <= PHYSTOP && perm < 1024
    ensures forall v: nat, w: u64 :: Extended(base / 4096, 0, base, perm, v, w) == w
    ensures base % 4096 == 0 ==>
      forall v: nat, w: u64 {:trigger Extended(base / 4096, PagesOf(base, size), base, perm, v, w)} ::
        Extended(base / 4096, PagesOf(base, size), base, perm, v, w) ==
        Identity(base / 4096, PageEnd(base + size), perm, v, w)
  {
    RangePages(base, size);
    if base % 4096 == 0 {
      AlignedPas(base);
    }
    hide PagesOf, PageEnd, PaOf, MakePte;
  }

  lemma RangePages(base: nat, size: nat)
    requires 0 < size
    ensures base / 4096 + PagesOf(base, size) == PageEnd(base + size)
    ensures (base + size - 1) / 4096 == PageEnd(base + size) - 1
  {}

  lemma AlignedPas(base: nat)
    requires base % 4096 == 0 && base < PHYSTOP
    ensures forall v :: base / 4096 <= v ==> PaOf(base, v - base / 4096) == PaOf(0, v)
  {
    forall v | base / 4096 <= v
      ensures PaOf(base, v - base / 4096) == PaOf(0, v)
    {
      AlignedPa(base, v);
    }
  }

  lemma AlignedPa(base: nat, v: nat)
    requires base % 4096 == 0 && base / 4096 <= v && base < PHYSTOP
    ensures PaOf(base, v - base / 4096) == PaOf(0, v)
  {
    assert base + (v - base / 4096) * 4096 == v * 4096;
  }

  /**
   kvmininit with seventy free pages, for any end of the text segment: the last mappages
   call panics on the page that text and data share exactly when etext is not page-aligned;
   otherwise the kernel's table maps exactly the five ranges, each page to itself.
   */
  method Kvmininit(pm: PhysMem, etext: nat) returns (vm: KernelVm, r: MapResult)
    requires pm.Valid() && |pm.free| >= 70 && KERNBASE < etext < PHYSTOP && KERNBASE <= pm.end_address
    modifies pm`mem, pm`free_mem_list, pm`free
    ensures vm.Valid() && fresh(vm) && vm.pm == pm && vm.nodes.Keys <= KernelTables()
    ensures |pm.free| + |vm.nodes| == |old(pm.free)|
    ensures r == if etext % 4096 == 0 then Mapped else Remap
    ensures r == Mapped ==> forall v :: 0 <= v < VPNS ==> vm.Pte(v) == KernelPte(etext, v)
    ensures r == Mapped ==> forall v :: 0 <= v < 0x400_0000 ==>
      vm.Pte(v) ==
      if 0x80000 <= v < etext / 4096 then v * 1024 + 11
      else if v == 0x10000 || v == 0x10001 || 0xc000 <= v < 0xc400 || 0x80000 <= v < 0x88000 then v * 1024 + 7
      else 0
  {
    hide KernelVm.Valid, KernelVm.Pte, KernelTables, PhysMem.Valid, Grew, MakePte, PaOf, V, PageEnd;
    assert Root in KernelTables() && !V(0) by { TablesStart(); }
    vm := new KernelVm.Root(pm);
    assert |vm.nodes| == |vm.nodes.Keys|;
    KernelEnds(etext);
    MapDevices(vm);
    r := MapRange(vm, KERNBASE, etext - KERNBASE, PTE_R + PTE_X);
    r := MapRange(vm, etext, PHYSTOP - etext, PTE_R + PTE_W);
    KernelPtesAre(etext);
  }

  /** The UART, the PLIC and the disk: the first three mappages calls of kvmininit. */
  method MapDevices(vm: KernelVm)
    requires vm.Valid() && vm.nodes.Keys <= KernelTables() && |vm.pm.free| + |vm.nodes| >= 70
    requires forall v :: 0 <= v < VPNS ==> vm.Pte(v) == 0
    modifies vm.pm`mem, vm.pm`free_mem_list, vm.pm`free, vm`nodes
    ensures vm.Valid() && vm.nodes.Keys <= KernelTables()
    ensures |vm.pm.free| + |vm.nodes| == old(|vm.pm.free| + |vm.nodes|)
    ensures forall v :: 0 <= v < VPNS ==>
      vm.Pte(v) ==
      if v == 0x10000 || v == 0x10001 || 0xc000 <= v < 0xc400 then MakePte(PaOf(0, v), PTE_R + PTE_W) else 0
  {
    hide KernelVm.Valid, KernelVm.Pte, KernelTables, PhysMem.Valid, Grew, MakePte, PaOf, V, PageEnd;
    assert !V(0) by { TablesStart(); }
    KernelEnds(KERNBASE + 1);
    var r := MapRange(vm, UART0, PGSIZE, PTE_R + PTE_W);
    r := MapRange(vm, PLIC, 0x400000, PTE_R + PTE_W);
    r := MapRange(vm, VIRTIO0, PGSIZE, PTE_R + PTE_W);
  }

  /** The page ranges of the five mappages calls of kvmininit. */
  lemma KernelEnds(etext: nat)
    requires KERNBASE < etext < PHYSTOP
    ensures PageEnd(UART0 + PGSIZE) == 0x10001 && PageEnd(PLIC + 0x400000) == 0xc400
    ensures PageEnd(VIRTIO0 + PGSIZE) == 0x10002
    ensures PageEnd(PHYSTOP) == 0x88000 &&
      PageEnd(etext) == if etext % 4096 == 0 then etext / 4096 else etext / 4096 + 1
    ensures 0x80000 <= etext / 4096 < 0x88000 && KERNBASE + (etext - KERNBASE) == etext
    ensures etext + (PHYSTOP - etext) == PHYSTOP
  {}

  lemma TablesStart()
    ensures Root in KernelTables() && !V(0)
  {}

  // ---------------------------------------------------------------- what the hardware then does

  /** Permissions the hardware accepts in a leaf. */
  predicate LeafPerm(perm: nat)
  {
    perm < 1024 && (R(perm) || X(perm)) && (W(perm) ==> R(perm))
  }

  lemma LeafBits(q: nat, low: nat)
    requires low < 1024 && q < 0x1000_0000_0000
    ensures var w := q * 1024 + low;
      (V(w) <==> V(low)) && (R(w) <==> R(low)) && (W(w) <==> W(low)) && (X(w) <==> X(low)) &&
      w / 1024 == q && w % 1024 == low
  {
    LeafBit(q, low, 1);
    LeafBit(q, low, 2);
    LeafBit(q, low, 4);
    LeafBit(q, low, 8);
  }

  lemma LeafBit(q: nat, low: nat, d: nat)
    requires d in {1, 2, 4, 8}
    ensures (q * 1024 + low) / d % 2 == low / d % 2
  {
    var w := q * 1024 + low;
    var e := if d == 1 then q * 512 else if d == 2 then q * 256 else if d == 4 then q * 128 else q * 64;
    assert w / d == 2 * e + low / d;
  }

  /** An entry mappages wrote sends each address of its page to the same offset of the physical page. */
  lemma MappedMeaning(pa: u64, perm: nat, va: nat)
    requires LeafPerm(perm) && pa < 0x100_0000_0000_0000
    ensures LeafMeaning(MakePte(pa, perm), va) == Some(Translation(pa / 4096 * 4096 + va % 4096, perm + 1 - perm % 2))
  {
    var low := perm + 1 - perm % 2;
    assert low / 2 == perm / 2 && low / 4 == perm / 4 && low / 8 == perm / 8;
    LeafBits(pa / 4096, low);
  }

  /** The kernel's entries as numbers: 11 is V, R and X, and 7 is V, R and W. */
  lemma KernelPteIs(etext: nat, v: nat)
    requires KERNBASE < etext < PHYSTOP && v < 0x400_0000
    ensures KernelPte(etext, v) ==
      if 0x80000 <= v < etext / 4096 then v * 1024 + 11
      else if v == 0x10000 || v == 0x10001 || 0xc000 <= v < 0xc400 || 0x80000 <= v < 0x88000 then v * 1024 + 7
      else 0
  {
    assert PaOf(0, v) == v * 4096;
    assert MakePte(PaOf(0, v), PTE_R + PTE_X) == v * 1024 + 11;
    assert MakePte(PaOf(0, v), PTE_R + PTE_W) == v * 1024 + 7;
  }

  lemma KernelPtesAre(etext: nat)
    requires KERNBASE < etext < PHYSTOP
    ensures forall v :: 0 <= v < 0x400_0000 ==>
      KernelPte(etext, v) ==
      if 0x80000 <= v < etext / 4096 then v * 1024 + 11
      else if v == 0x10000 || v == 0x10001 || 0xc000 <= v < 0xc400 || 0x80000 <= v < 0x88000 then v * 1024 + 7
      else 0
  {
    hide KernelPte;
    forall v | 0 <= v < 0x400_0000 {
      KernelPteIs(etext, v);
    }
  }

  /** What the hardware makes of such an entry. */
  lemma NumberMeaning(v: nat, low: nat, va: nat)
    requires v < 0x400_0000 && low in {7, 11, 23, 31} && va / 4096 == v
    ensures LeafMeaning(v * 1024 + low, va) == Some(Translation(va, low))
  {
    LeafBits(v, low);
    assert va == v * 4096 + va % 4096;
  }

  lemma ZeroFaults(va: nat)
    ensures LeafMeaning(0, va) == None
  {}

  lemma NumberBits(low: nat)
    requires low in {7, 11, 23, 31}
    ensures R(low) && (W(low) <==> low != 11) && (X(low) <==> low == 11 || low == 31) && (U(low) <==> low >= 23)
  {}

  /**
   With the kernel's table the MMU is the identity on the UART, the disk, the PLIC and RAM, and
   faults elsewhere. Kernel text may be read and executed, everything else read and written,
   and none of it is open to user mode.
   */
  lemma KernelIdentity(vm: KernelVm, etext: nat, va: nat)
    requires vm.Valid() && KERNBASE < etext < PHYSTOP && va < 0x40_0000_0000
    requires forall v :: 0 <= v < VPNS ==> vm.Pte(v) == KernelPte(etext, v)
    ensures var t := Translate(vm.pm.mem, vm.kernel_pagetable, 2, va);
      (t.Some? <==>
        0x1000_0000 <= va < 0x1000_2000 || 0x0c00_0000 <= va < 0x0c40_0000 || 0x8000_0000 <= va < 0x8800_0000) &&
      (t.Some? ==>
        t.value.pa == va && !U(t.value.flags) &&
        if 0x80000 <= va / 4096 < etext / 4096
        then R(t.value.flags) && X(t.value.flags) && !W(t.value.flags) && t.value.flags == 11
        else R(t.value.flags) && W(t.value.flags) && !X(t.value.flags) && t.value.flags == 7)
  {
    hide Translate, LeafMeaning, KernelPte, R, W, X, U;
    HardwareAgrees(vm.pm.mem, vm.nodes, vm.kernel_pagetable, va);
    var v := va / 4096;
    assert vm.Pte(v) == KernelPte(etext, v);
    KernelPteIs(etext, v);
    NumberMeaning(v, 11, va);
    NumberMeaning(v, 7, va);
    NumberBits(11);
    NumberBits(7);
    ZeroFaults(va);
  }

  /** |= of userinit: PTE_U, and PTE_X for the code page. */
  function Granted(w: u64, exec: bool): nat
  {
    w + (if exec && !X(w) then PTE_X else 0) + (if U(w) then 0 else PTE_U)
  }

  /**
   userinit's use of walk without allocation: the page of va gets the user bits, keeps its
   physical page, and no other translation changes.
   */
  method GrantUser(vm: KernelVm, va: nat, exec: bool)
    requires vm.Valid() && va < MAXVA && TableOf(0, va / 4096) in vm.nodes && vm.Pte(va / 4096) < 0x40_0000_0000_0000
    modifies vm.pm`mem, vm.pm`free_mem_list, vm.pm`free, vm`nodes
    ensures vm.Valid() && vm.nodes == old(vm.nodes) && vm.pm.free == old(vm.pm.free)
    ensures vm.pm.mem.Keys == old(vm.pm.mem.Keys)
    ensures vm.Pte(va / 4096) == Granted(old(vm.Pte(va / 4096)), exec)
    ensures forall v :: 0 <= v < VPNS && v != va / 4096 ==> vm.Pte(v) == old(vm.Pte(v))
    ensures forall q :: q in vm.pm.mem && q !in vm.nodes.Values ==> vm.pm.mem[q] == old(vm.pm.mem[q])
  {
    hide KernelVm.Valid, KernelVm.Pte, TableOf, X, U;
    var pg, idx := vm.Walk(va, false);
    vm.LeafOf(va);
    vm.SetPte(va / 4096, pg, idx, Granted(vm.pm.mem[pg][idx], exec));
  }

  /** A user page, whose entry ends in 23 or 31: user mode may read and write it, and execute it if X is set too. */
  lemma UserIdentity(vm: KernelVm, va: nat, low: nat)
    requires vm.Valid() && va < 0x40_0000_0000 && low in {23, 31} && vm.Pte(va / 4096) == va / 4096 * 1024 + low
    ensures Translate(vm.pm.mem, vm.kernel_pagetable, 2, va) == Some(Translation(va, low))
    ensures U(low) && R(low) && W(low) && (X(low) <==> low == 31)
  {
    hide Translate, LeafMeaning, R, W, X, U;
    HardwareAgrees(vm.pm.mem, vm.nodes, vm.kernel_pagetable, va);
    NumberMeaning(va / 4096, low, va);
    NumberBits(low);
  }

  /**
   The address space the first process runs in: the kernel's identity map, where two pages of
   RAM are user pages, one of them executable, and nothing else is open to user mode.
   */
  lemma BootedIdentity(vm: KernelVm, etext: nat, code: nat, stack: nat, va: nat)
    requires vm.Valid() && 0x8000_0000 < etext < 0x8800_0000 && va < 0x40_0000_0000
    requires 0x80000 <= code / 4096 < 0x88000 && 0x80000 <= stack / 4096 < 0x88000 && code / 4096 != stack / 4096
    requires vm.Pte(code / 4096) == code / 4096 * 1024 + 31 && vm.Pte(stack / 4096) == stack / 4096 * 1024 + 23
    requires forall v :: 0 <= v < VPNS && v != code / 4096 && v != stack / 4096 ==> vm.Pte(v) == KernelPte(etext, v)
    ensures var t := Translate(vm.pm.mem, vm.kernel_pagetable, 2, va);
      (t.Some? <==>
        0x1000_0000 <= va < 0x1000_2000 || 0x0c00_0000 <= va < 0x0c40_0000 || 0x8000_0000 <= va < 0x8800_0000) &&
      (t.Some? ==>
        t.value.pa == va &&
        (U(t.value.flags) <==> va / 4096 == code / 4096 || va / 4096 == stack / 4096) &&
        t.value.flags ==
          if va / 4096 == code / 4096 then 31
          else if va / 4096 == stack / 4096 then 23
          else if 0x80000 <= va / 4096 < etext / 4096 then 11 else 7)
  {
    hide Translate, LeafMeaning, KernelPte, R, W, X, U;
    var v := va / 4096;
    if v == code / 4096 {
      UserIdentity(vm, va, 31);
    } else if v == stack / 4096 {
      UserIdentity(vm, va, 23);
    } else {
      HardwareAgrees(vm.pm.mem, vm.nodes, vm.kernel_pagetable, va);
      assert vm.Pte(v) == KernelPte(etext, v);
      KernelPteIs(etext, v);
      NumberMeaning(v, 11, va);
      NumberMeaning(v, 7, va);
      ZeroFaults(va);
    }
    NumberBits(11);
    NumberBits(7);
  }

  /** Granting keeps the physical page: a kernel data page becomes a user page at the same address. */
  lemma GrantedMeaning(pa: u64, exec: bool, va: nat)
    requires pa < 0x100_0000_0000_0000 && pa % 4096 == 0
    ensures Granted(MakePte(pa, PTE_R + PTE_W), exec) ==
      MakePte(pa, PTE_R + PTE_W + (if exec then PTE_X else 0) + PTE_U)
    ensures Granted(MakePte(pa, PTE_R + PTE_W), exec) == pa / 4096 * 1024 + if exec then 31 else 23
    ensures LeafMeaning(Granted(MakePte(pa, PTE_R + PTE_W), exec), va) ==
      Some(Translation(pa + va % 4096, if exec then 31 else 23))
  {
    var q := pa / 4096;
    var w := q * 1024 + 7;
    assert w / 8 == q * 128 && w / 16 == q * 64;
    assert MakePte(pa, PTE_R + PTE_W) == w && !X(w) && !U(w);
    MappedMeaning(pa, PTE_R + PTE_W + (if exec then PTE_X else 0) + PTE_U, va);
  }
}

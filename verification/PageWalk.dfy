/** Four-level x86-64 paging: table memory, the hardware walk and its access rights (sections 4.5 and 4.6 of Intel SDM
    Volume 3A), and the tree that the loader's tables form.

    Levels are numbered from the leaves: 0 is a page table, 1 a page directory, 2 a page-directory-pointer
    table and 3 the PML4. A slot of level l covers Span(l) bytes of virtual addresses. */
module PageWalk {

  import opened Bits

  const PTE_P: nat := 1
  const PTE_RW: nat := 2
  const PTE_PS: nat := 0x80
  const ADDR_MASK: nat := 0x000F_FFFF_FFFF_F000
  const PHYS_LIMIT: nat := 0x10_0000_0000_0000
  const VA_LIMIT: nat := 0x1_0000_0000_0000

  type Table = t: seq<nat> | |t| == 512 witness seq(512, _ => 0)

  /** The pages that hold tables, by physical address. */
  type Memory = map<nat, Table>

  /** The table of a level that covers slot `prefix` of the level above. */
  datatype Node = Node(level: nat, prefix: nat)

  /** What the hardware makes of a virtual address; `level` tells the page size (Span(level)). */
  datatype Translation = Unmapped | Mapped(pa: nat, level: nat)
  {
    predicate Large() { Mapped? && level > 0 }
  }

  function ZeroTable(): (t: Table)
    ensures forall i :: 0 <= i < 512 ==> t[i] == 0
  {
    seq(512, _ => 0)
  }

  const ROOT: Node := Node(3, 0)

  /* ------------------------------ Entries ------------------------------ */

  predicate Present(e: nat) { e % 2 == 1 }

  /** The page-size bit. */
  predicate Ps(e: nat) { e / 0x80 % 2 == 1 }

  /** Bits 51..12. */
  function Addr(e: nat): nat { e % PHYS_LIMIT - e % 0x1000 }

  /** Whether a slot of level l refers to a table of level l - 1. */
  predicate IsTable(e: nat, l: nat) { l > 0 && Present(e) && !Ps(e) }

  /** What the processor lets a page be used for. */
  datatype Rights = Rights(write: bool, execute: bool, user: bool)

  const NO_RIGHTS: Rights := Rights(false, false, false)

  /** Read, write and execute, for the supervisor only. */
  const KERNEL: Rights := Rights(true, true, false)

  /** What one entry grants: bit 1 writing, bit 2 user access, and bit 63, when set, takes away execution. */
  function Granted(e: nat): Rights {
    Rights(e / 2 % 2 == 1, e / 0x8000_0000_0000_0000 % 2 == 0, e / 4 % 2 == 1)
  }

  function Both(a: Rights, b: Rights): Rights {
    Rights(a.write && b.write, a.execute && b.execute, a.user && b.user)
  }

  /** The loader's tests on an entry are the fields above. */
  lemma EntryFields(e: nat)
    ensures And(e, PTE_P) == 0 <==> !Present(e)
    ensures And(e, PTE_PS) == 0 <==> !Ps(e)
    ensures And(e, ADDR_MASK) == Addr(e)
  {
    hide And;
    EntryBit(e, 0);
    EntryBit(e, 7);
    AddrField(e);
  }

  lemma EntryBit(e: nat, k: nat)
    ensures And(e, Pow2(k)) == 0 <==> e / Pow2(k) % 2 == 0
    ensures Pow2(0) == PTE_P && Pow2(7) == PTE_PS
  {
    hide And;
    Pow2Values();
    AndBit(e, k);
  }

  lemma AddrField(e: nat)
    ensures And(e, ADDR_MASK) == Addr(e)
  {
    hide And;
    Pow2Values();
    AndField(e, 12, 52);
  }

  /** Packing a page address with flags and unpacking it again. */
  lemma EntryPack(p: nat)
    requires p % 0x1000 == 0 && p < PHYS_LIMIT
    ensures var e := Or(Or(p, PTE_P), PTE_RW); e == p + 3 && Present(e) && !Ps(e) && Addr(e) == p
    ensures var e := Or(Or(Or(p, PTE_P), PTE_RW), PTE_PS); e == p + 0x83 && Present(e) && Ps(e) && Addr(e) == p
  {
    PackFlags(p);
    PackedFields(p);
  }

  lemma PackFlags(p: nat)
    requires p % 0x1000 == 0
    ensures Or(Or(p, PTE_P), PTE_RW) == p + 3
    ensures Or(Or(Or(p, PTE_P), PTE_RW), PTE_PS) == p + 0x83
  {
    Pow2Values();
    assert Or(1, 2) == 3;
    OrLow(0x80, 3, 7);
    OrComm(0x80, 3);
    hide Or;
    OrAssoc(p, 1, 2);
    OrAssoc(p, 3, 0x80);
    OrLow(p, 3, 12);
    OrLow(p, 0x83, 12);
  }

  lemma PackedFields(p: nat)
    requires p % 0x1000 == 0 && p < PHYS_LIMIT
    ensures var e := p + 3; Present(e) && !Ps(e) && Addr(e) == p
    ensures var e := p + 0x83; Present(e) && Ps(e) && Addr(e) == p
  {
    PackedField(p, 3);
    PackedField(p, 0x83);
  }

  lemma PackedField(p: nat, f: nat)
    requires p % 0x1000 == 0 && p < PHYS_LIMIT && f < 0x100
    ensures Addr(p + f) == p && (Present(p + f) <==> Present(f)) && (Ps(p + f) <==> Ps(f))
  {
    hide Addr, Present, Ps;
    var q := p / 0x1000;
    assert p == 0x1000 * q;
    PackedAddr(q, f);
    PackedFlags(q, f);
  }

  lemma PackedAddr(q: nat, f: nat)
    requires 0x1000 * q < PHYS_LIMIT && f < 0x100
    ensures Addr(0x1000 * q + f) == 0x1000 * q
  {
    DivModUnique(0x1000 * q + f, 0x1000, q, f);
  }

  lemma PackedFlags(q: nat, f: nat)
    requires f < 0x100
    ensures Present(0x1000 * q + f) <==> Present(f)
    ensures Ps(0x1000 * q + f) <==> Ps(f)
  {
    DivModUnique(0x1000 * q + f, 2, 0x800 * q + f / 2, f % 2);
    DivModUnique(0x1000 * q + f, 0x80, 32 * q + f / 0x80, f % 0x80);
    DivModUnique(32 * q + f / 0x80, 2, 16 * q, f / 0x80);
  }

  /** Both kinds of entries that the loader writes grant the kernel everything. */
  lemma PackedRights(p: nat)
    requires p % 0x1000 == 0 && p < PHYS_LIMIT
    ensures Granted(p + 3) == KERNEL && Granted(p + 0x83) == KERNEL
  {
    var q := p / 0x1000;
    assert p == 0x1000 * q;
    PackedRight(q, 3);
    PackedRight(q, 0x83);
  }

  lemma PackedRight(q: nat, f: nat)
    requires 0x1000 * q < PHYS_LIMIT && (f == 3 || f == 0x83)
    ensures Granted(0x1000 * q + f) == KERNEL
  {
    var e := 0x1000 * q + f;
    DivModUnique(e, 2, 0x800 * q + f / 2, 1);
    DivModUnique(0x800 * q + f / 2, 2, 0x400 * q + f / 4, 1);
    DivModUnique(e, 4, 0x400 * q + f / 4, 3);
    DivModUnique(0x400 * q + f / 4, 2, 0x200 * q + f / 8, 0);
    DivModUnique(e, 0x8000_0000_0000_0000, 0, e);
  }

  /* ------------------------------ Slots ------------------------------ */

  function Span(l: nat): (s: nat)
    requires l <= 4
    ensures s % 0x1000 == 0 && 0 < s <= VA_LIMIT
  {
    if l == 0 then 0x1000 else if l == 1 then 0x20_0000 else if l == 2 then 0x4000_0000
    else if l == 3 then 0x80_0000_0000 else VA_LIMIT
  }

  /** Number of the slot of level l that covers va. */
  function Slot(l: nat, va: nat): nat
    requires l <= 4
  {
    va / Span(l)
  }

  function Index(l: nat, va: nat): (i: nat)
    requires l <= 3
    ensures i < 512
  {
    va / Span(l) % 512
  }

  /** Offset of va within its page of level l. */
  function Offset(l: nat, va: nat): nat
    requires l <= 4
  {
    va % Span(l)
  }

  /** x is the address of a page of level l. */
  predicate PageBase(l: nat, x: nat)
    requires l <= 4
  {
    x % Span(l) == 0
  }

  lemma SlotSplit(l: nat, va: nat)
    requires l <= 3
    ensures Slot(l, va) == Slot(l + 1, va) * 512 + Index(l, va)
    ensures Slot(l + 1, va) == Slot(l, va) / 512
  {
  }

  /* ------------------------------ The walk ------------------------------ */

  /** Translation by a present entry that ends the walk. A set page-size bit in a PML4 entry and set reserved bits
      in a large-page entry raise a fault; bit 12 of a large-page entry is the PAT bit. */
  function LeafOf(e: nat, l: nat, va: nat): Translation
    requires l <= 3
  {
    if l == 0 then Mapped(Addr(e) + Offset(0, va), 0)
    else if l == 3 || e % Span(l) / 0x2000 != 0 then Unmapped
    else Mapped(e % PHYS_LIMIT / Span(l) * Span(l) + Offset(l, va), l)
  }

  /** Walk from table `a` of level l. */
  function WalkFrom(mem: Memory, a: nat, l: nat, va: nat): Translation
    requires l <= 3
    decreases l
  {
    if a !in mem then Unmapped
    else
      var e := mem[a][Index(l, va)];
      if !Present(e) then Unmapped
      else if IsTable(e, l) then WalkFrom(mem, Addr(e), l - 1, va)
      else LeafOf(e, l, va)
  }

  function Walk(mem: Memory, root: nat, va: nat): Translation {
    WalkFrom(mem, root, 3, va)
  }

  /** Access rights of va: granted only by all entries on its walk together. */
  function RightsFrom(mem: Memory, a: nat, l: nat, va: nat): Rights
    requires l <= 3
    decreases l
  {
    if a !in mem then NO_RIGHTS
    else
      var e := mem[a][Index(l, va)];
      if !Present(e) then NO_RIGHTS
      else if IsTable(e, l) then Both(Granted(e), RightsFrom(mem, Addr(e), l - 1, va))
      else Granted(e)
  }

  predicate Canonical(va: nat) {
    va < VA_LIMIT / 2 || WORD - VA_LIMIT / 2 <= va < WORD
  }

  /** Translation of a 64-bit virtual address: only bits 47..0 take part in the walk, and an address that is
      not canonical never reaches it. */
  function Translate(mem: Memory, root: nat, va: nat): Translation {
    if Canonical(va) then Walk(mem, root, va % VA_LIMIT) else Unmapped
  }

  /* ------------------------------ The tree ------------------------------ */

  function Child(n: Node, i: nat): Node
    requires n.level > 0
  {
    Node(n.level - 1, n.prefix * 512 + i)
  }

  function Parent(n: Node): Node { Node(n.level + 1, n.prefix / 512) }

  /** Slot i of table n refers to a table exactly when the tree has that child, and then to that child's page;
      a slot that ends the walk translates (it raises no fault). */
  ghost predicate SlotLinked(mem: Memory, dir: map<Node, nat>, n: Node, i: nat)
    requires n in dir && dir[n] in mem && i < 512
  {
    var e := mem[dir[n]][i];
    && n.level <= 3
    && (Present(e) ==> Granted(e) == KERNEL)
    && (Present(e) && !IsTable(e, n.level) ==> LeafOf(e, n.level, 0).Mapped?)
    && (n.level > 0 ==>
          && (IsTable(e, n.level) <==> Child(n, i) in dir)
          && (IsTable(e, n.level) ==> dir[Child(n, i)] == Addr(e)))
  }

  /** `dir` places every table page at one node, and the entries link the nodes into a tree under the root.
      No page is shared: `dir` is injective. */
  ghost predicate Tree(mem: Memory, root: nat, dir: map<Node, nat>) {
    && ROOT in dir && dir[ROOT] == root
    && (forall n :: n in dir ==> n.level <= 3 && (n.level == 3 ==> n == ROOT))
    && (forall n :: n in dir ==> dir[n] in mem && dir[n] % 0x1000 == 0 && dir[n] < PHYS_LIMIT)
    && (forall n {:trigger Parent(n)} :: n in dir && n.level < 3 ==> Parent(n) in dir)
    && (forall m, n :: m in dir && n in dir && dir[m] == dir[n] ==> m == n)
    && (forall n, i {:trigger SlotLinked(mem, dir, n, i)} :: n in dir && 0 <= i < 512 ==> SlotLinked(mem, dir, n, i))
  }

  /** The node of level l on the path of va. */
  function NodeOf(l: nat, va: nat): (n: Node)
    requires l <= 3
    ensures n.level == l
  {
    Node(l, Slot(l + 1, va))
  }

  lemma NodeOfChild(l: nat, va: nat)
    requires 0 < l <= 3
    ensures Child(NodeOf(l, va), Index(l, va)) == NodeOf(l - 1, va)
    ensures Parent(NodeOf(l - 1, va)) == NodeOf(l, va)
  {
    SlotSplit(l, va);
  }

  lemma RootOf(va: nat)
    requires va < VA_LIMIT
    ensures NodeOf(3, va) == ROOT
  {
  }

  /** If the tree has the level-l table of va then the walk from the root passes through it. */
  lemma {:induction false} WalkThrough(mem: Memory, root: nat, dir: map<Node, nat>, l: nat, va: nat)
    requires Tree(mem, root, dir) && l <= 3 && va < VA_LIMIT && NodeOf(l, va) in dir
    ensures Walk(mem, root, va) == WalkFrom(mem, dir[NodeOf(l, va)], l, va)
    decreases 3 - l
  {
    if l < 3 {
      NodeOfChild(l + 1, va);
      WalkThrough(mem, root, dir, l + 1, va);
      assert SlotLinked(mem, dir, NodeOf(l + 1, va), Index(l + 1, va));
    }
  }

  /** A slot on the path of va that ends the walk decides how va translates. */
  lemma SlotDecides(mem: Memory, root: nat, dir: map<Node, nat>, l: nat, va: nat)
    requires Tree(mem, root, dir) && l <= 3 && va < VA_LIMIT && NodeOf(l, va) in dir
    ensures var e := mem[dir[NodeOf(l, va)]][Index(l, va)];
            && (!Present(e) ==> Walk(mem, root, va) == Unmapped)
            && (Present(e) && !IsTable(e, l) ==> Walk(mem, root, va).Mapped? && Walk(mem, root, va).level == l)
    ensures l == 0 ==> !Walk(mem, root, va).Large()
  {
    hide Present, Ps, Addr, LeafOf, Slot, Index, Span, Parent;
    WalkThrough(mem, root, dir, l, va);
    var e := mem[dir[NodeOf(l, va)]][Index(l, va)];
    assert SlotLinked(mem, dir, NodeOf(l, va), Index(l, va));
    LeafOfAny(e, l, va);
  }

  /** An unmapped address without a table below its slot has an absent slot. */
  lemma AbsentSlot(mem: Memory, root: nat, dir: map<Node, nat>, l: nat, va: nat)
    requires Tree(mem, root, dir) && 0 < l <= 3 && va < VA_LIMIT && NodeOf(l, va) in dir
    requires NodeOf(l - 1, va) !in dir && Walk(mem, root, va) == Unmapped
    ensures !Present(mem[dir[NodeOf(l, va)]][Index(l, va)])
  {
    hide Present, Ps, Addr, LeafOf, Slot, Index, Span, Parent, Walk;
    SlotDecides(mem, root, dir, l, va);
    NodeOfChild(l, va);
    assert SlotLinked(mem, dir, NodeOf(l, va), Index(l, va));
  }

  /** Without its page-directory-pointer table an address is unmapped and has no tables at all. */
  lemma NoTables(mem: Memory, root: nat, dir: map<Node, nat>, va: nat)
    requires Tree(mem, root, dir) && va < VA_LIMIT && NodeOf(2, va) !in dir
    ensures NodeOf(1, va) !in dir && NodeOf(0, va) !in dir && Walk(mem, root, va) == Unmapped
  {
    hide Present, Ps, Addr, Slot, Index, Span;
    RootOf(va);
    NodeOfChild(3, va);
    NodeOfChild(2, va);
    NodeOfChild(1, va);
    assert SlotLinked(mem, dir, ROOT, Index(3, va));
    WalkThrough(mem, root, dir, 3, va);
  }

  /** Below a missing table there is none. */
  lemma NoneBelow(mem: Memory, root: nat, dir: map<Node, nat>, l: nat, va: nat)
    requires Tree(mem, root, dir) && 0 < l <= 3 && NodeOf(l, va) !in dir
    ensures NodeOf(l - 1, va) !in dir
  {
    hide Present, IsTable, Addr, LeafOf, Slot, Index, Span, SlotLinked;
    NodeOfChild(l, va);
    assert Parent(NodeOf(l - 1, va)) == NodeOf(l, va);
  }

  /** A mapped address has all the tables down to the level that maps it. */
  lemma {:induction false} WalkTables(mem: Memory, root: nat, dir: map<Node, nat>, l: nat, va: nat)
    requires Tree(mem, root, dir) && l <= 3 && va < VA_LIMIT
    requires Walk(mem, root, va).Mapped? && Walk(mem, root, va).level <= l
    ensures NodeOf(l, va) in dir
    decreases 3 - l
  {
    hide Present, Ps, Addr, LeafOf, Slot, Index, Span, Parent, Walk;
    if l == 3 {
      RootOf(va);
    } else {
      WalkTables(mem, root, dir, l + 1, va);
      SlotDecides(mem, root, dir, l + 1, va);
      NodeOfChild(l + 1, va);
      assert SlotLinked(mem, dir, NodeOf(l + 1, va), Index(l + 1, va));
    }
  }

  /** Every mapped address of the tree can be read, written and executed by the kernel, and by nobody else. */
  lemma {:induction false} TreeRights(mem: Memory, root: nat, dir: map<Node, nat>, l: nat, va: nat)
    requires Tree(mem, root, dir) && l <= 3 && va < VA_LIMIT && NodeOf(l, va) in dir
    ensures WalkFrom(mem, dir[NodeOf(l, va)], l, va).Mapped? ==> RightsFrom(mem, dir[NodeOf(l, va)], l, va) == KERNEL
    decreases l
  {
    hide Present, Ps, Addr, LeafOf, Slot, Index, Span, Parent, Granted;
    assert SlotLinked(mem, dir, NodeOf(l, va), Index(l, va));
    if l > 0 {
      NodeOfChild(l, va);
      if NodeOf(l - 1, va) in dir {
        TreeRights(mem, root, dir, l - 1, va);
      }
    }
  }

  lemma LeafOfAny(e: nat, l: nat, va: nat)
    requires l <= 3
    ensures LeafOf(e, l, va).Mapped? <==> LeafOf(e, l, 0).Mapped?
    ensures LeafOf(e, l, va).Mapped? ==> LeafOf(e, l, va).level == l
  {
  }

  /* ------------------------------ Writing entries ------------------------------ */

  function SetEntry(mem: Memory, a: nat, i: nat, e: nat): (mem': Memory)
    requires a in mem && i < 512
    ensures mem'.Keys == mem.Keys
  {
    mem[a := mem[a][i := e]]
  }

  /** Writing slot i of table n leaves every walk alone that does not use that slot. */
  lemma {:induction false} OtherSlotsKeepWalk(mem: Memory, root: nat, dir: map<Node, nat>,
                                              n: Node, i: nat, e: nat, l: nat, va: nat)
    requires Tree(mem, root, dir) && n in dir && i < 512
    requires l <= 3 && va < VA_LIMIT && NodeOf(l, va) in dir
    requires Slot(n.level, va) != n.prefix * 512 + i
    ensures WalkFrom(SetEntry(mem, dir[n], i, e), dir[NodeOf(l, va)], l, va) == WalkFrom(mem, dir[NodeOf(l, va)], l, va)
    decreases l
  {
    hide Present, Ps, Addr, Span, Slot, Index, LeafOf, Parent;
    var m := NodeOf(l, va);
    SlotSplit(l, va);
    assert m == n ==> Index(l, va) != i;
    assert SlotLinked(mem, dir, m, Index(l, va));
    if IsTable(mem[dir[m]][Index(l, va)], l) {
      NodeOfChild(l, va);
      OtherSlotsKeepWalk(mem, root, dir, n, i, e, l - 1, va);
    }
  }

  /** A leaf entry of level l for frame address p: what the loader installs. */
  predicate LeafFor(e: nat, l: nat, p: nat) {
    && l <= 2 && PageBase(l, p) && p < PHYS_LIMIT
    && e == (if l == 0 then p + 3 else p + 0x83)
  }

  lemma LeafEntry(e: nat, l: nat, p: nat, va: nat)
    requires LeafFor(e, l, p)
    ensures Present(e) && !IsTable(e, l) && Granted(e) == KERNEL
    ensures LeafOf(e, l, va) == Mapped(p + Offset(l, va), l)
  {
    hide Addr, Present, Ps, Granted;
    assert p % 0x1000 == 0;
    PackedFields(p);
    PackedRights(p);
    if l > 0 {
      LargeLeaf(p, l);
    }
  }

  lemma LargeLeaf(p: nat, l: nat)
    requires 1 <= l <= 2 && PageBase(l, p) && p < PHYS_LIMIT
    ensures (p + 0x83) % Span(l) == 0x83 && (p + 0x83) % PHYS_LIMIT / Span(l) * Span(l) == p
  {
    var q := p / Span(l);
    assert p == Span(l) * q;
    DivModUnique(p + 0x83, Span(l), q, 0x83);
  }

  /** Writing a leaf into a slot that holds no table retranslates the addresses of that slot and no others,
      and keeps the tree. */
  lemma LeafWrite(mem: Memory, root: nat, dir: map<Node, nat>, n: Node, i: nat, e: nat, p: nat)
    requires Tree(mem, root, dir) && n in dir && i < 512
    requires LeafFor(e, n.level, p)
    requires !IsTable(mem[dir[n]][i], n.level)
    ensures Tree(SetEntry(mem, dir[n], i, e), root, dir)
    ensures forall va :: 0 <= va < VA_LIMIT ==>
              Walk(SetEntry(mem, dir[n], i, e), root, va) ==
              if Slot(n.level, va) == n.prefix * 512 + i then Mapped(p + Offset(n.level, va), n.level)
              else Walk(mem, root, va)
  {
    hide Present, Ps, Addr, LeafOf, Span, Slot, Index, Parent, Granted;
    var mem' := SetEntry(mem, dir[n], i, e);
    LeafEntry(e, n.level, p, 0);
    assert n.level <= 2;
    forall m, j | m in dir && 0 <= j < 512
      ensures SlotLinked(mem', dir, m, j)
    {
      assert SlotLinked(mem, dir, m, j);
    }
    forall va | 0 <= va < VA_LIMIT
      ensures Walk(mem', root, va) ==
              if Slot(n.level, va) == n.prefix * 512 + i then Mapped(p + Offset(n.level, va), n.level)
              else Walk(mem, root, va)
    {
      SlotSplit(n.level, va);
      if Slot(n.level, va) == n.prefix * 512 + i {
        assert NodeOf(n.level, va) == n && Index(n.level, va) == i;
        WalkThrough(mem', root, dir, n.level, va);
        LeafEntry(e, n.level, p, va);
      } else {
        RootOf(va);
        OtherSlotsKeepWalk(mem, root, dir, n, i, e, 3, va);
      }
    }
  }

  lemma ZeroEntry()
    ensures !Present(0)
  {
  }

  /** The tree after a fresh zeroed page c becomes child i of table n. */
  function LinkEntry(mem: Memory, dir: map<Node, nat>, n: Node, i: nat, c: nat): Memory
    requires n in dir && dir[n] in mem && i < 512
  {
    SetEntry(mem[c := ZeroTable()], dir[n], i, c + 3)
  }

  /** Linking a fresh table into an absent slot keeps the tree and changes no translation at all. */
  lemma LinkTable(mem: Memory, root: nat, dir: map<Node, nat>, n: Node, i: nat, c: nat)
    requires Tree(mem, root, dir) && n in dir && n.level > 0 && i < 512
    requires !Present(mem[dir[n]][i])
    requires c !in mem && c % 0x1000 == 0 && c < PHYS_LIMIT
    ensures Child(n, i) !in dir
    ensures Tree(LinkEntry(mem, dir, n, i, c), root, dir[Child(n, i) := c])
    ensures forall va :: 0 <= va < VA_LIMIT ==>
              Walk(LinkEntry(mem, dir, n, i, c), root, va) == Walk(mem, root, va)
  {
    hide Present, Ps, Addr, LeafOf, Slot, Index, Parent;
    var mem', dir' := LinkEntry(mem, dir, n, i, c), dir[Child(n, i) := c];
    assert SlotLinked(mem, dir, n, i);
    LinkedTree(mem, root, dir, n, i, c);
    forall va | 0 <= va < VA_LIMIT
      ensures Walk(mem', root, va) == Walk(mem, root, va)
    {
      RootOf(va);
      LinkKeepsWalk(mem, root, dir, n, i, c, 3, va);
    }
  }

  lemma LinkedTree(mem: Memory, root: nat, dir: map<Node, nat>, n: Node, i: nat, c: nat)
    requires Tree(mem, root, dir) && n in dir && n.level > 0 && i < 512
    requires !Present(mem[dir[n]][i]) && Child(n, i) !in dir
    requires c !in mem && c % 0x1000 == 0 && c < PHYS_LIMIT
    ensures Tree(LinkEntry(mem, dir, n, i, c), root, dir[Child(n, i) := c])
  {
    hide Present, Ps, Addr, Child, Parent, SlotLinked, LinkEntry;
    var mem', dir' := LinkEntry(mem, dir, n, i, c), dir[Child(n, i) := c];
    LinkedPages(mem, root, dir, n, i, c);
    forall m, j | m in dir' && 0 <= j < 512
      ensures dir'[m] in mem' && SlotLinked(mem', dir', m, j)
    {
      LinkedSlot(mem, root, dir, n, i, c, m, j);
    }
    ChildOf(n, i);
    forall m | m in dir'
      ensures m.level < 3 ==> Parent(m) in dir'
    {
    }
  }

  lemma ChildOf(n: Node, i: nat)
    requires n.level > 0 && i < 512
    ensures Parent(Child(n, i)) == n && Child(n, i).level == n.level - 1
  {
  }

  lemma LinkedPages(mem: Memory, root: nat, dir: map<Node, nat>, n: Node, i: nat, c: nat)
    requires Tree(mem, root, dir) && n in dir && dir[n] in mem && i < 512 && c !in mem
    ensures LinkEntry(mem, dir, n, i, c).Keys == mem.Keys + {c}
    ensures forall m :: m in dir ==> dir[m] in mem && dir[m] != c
  {
    hide SlotLinked, Parent;
  }

  /** Every slot of the tree with the new table is linked. */
  lemma LinkedSlot(mem: Memory, root: nat, dir: map<Node, nat>, n: Node, i: nat, c: nat, m: Node, j: nat)
    requires Tree(mem, root, dir) && n in dir && n.level > 0 && i < 512 && dir[n] in mem
    requires !Present(mem[dir[n]][i]) && Child(n, i) !in dir
    requires c !in mem && c % 0x1000 == 0 && c < PHYS_LIMIT
    requires m in dir[Child(n, i) := c] && j < 512
    ensures var (mem', dir') := (LinkEntry(mem, dir, n, i, c), dir[Child(n, i) := c]);
            dir'[m] in mem' && SlotLinked(mem', dir', m, j)
  {
    hide Present, Ps, Addr, Granted;
    PackedFields(c);
    PackedRights(c);
    ZeroEntry();
    if m == Child(n, i) {
      assert m.level > 0 ==> Parent(Child(m, j)) == m;
    } else {
      assert SlotLinked(mem, dir, m, j);
      if m.level > 0 && Child(m, j) == Child(n, i) {
        assert m == n && j == i;
      }
    }
  }

  lemma {:induction false} LinkKeepsWalk(mem: Memory, root: nat, dir: map<Node, nat>,
                                         n: Node, i: nat, c: nat, l: nat, va: nat)
    requires Tree(mem, root, dir) && n in dir && n.level > 0 && i < 512
    requires !Present(mem[dir[n]][i])
    requires c !in mem && c % 0x1000 == 0 && c < PHYS_LIMIT
    requires l <= 3 && va < VA_LIMIT && NodeOf(l, va) in dir
    ensures WalkFrom(LinkEntry(mem, dir, n, i, c), dir[NodeOf(l, va)], l, va) == WalkFrom(mem, dir[NodeOf(l, va)], l, va)
    decreases l
  {
    hide Present, Ps, Addr, LeafOf, Slot, Index, Span;
    var m, j := NodeOf(l, va), Index(l, va);
    assert SlotLinked(mem, dir, m, j);
    if m == n && j == i {
      PackedFields(c);
      ZeroEntry();
      assert WalkFrom(LinkEntry(mem, dir, n, i, c), c, l - 1, va) == Unmapped;
    } else if IsTable(mem[dir[m]][j], l) {
      NodeOfChild(l, va);
      LinkKeepsWalk(mem, root, dir, n, i, c, l - 1, va);
    }
  }
}

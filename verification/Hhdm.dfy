/** The higher-half direct map: physical memory seen at HHDM_BASE through the largest pages that fit. */
module Hhdm {

  import opened Wrappers
  import opened Bits
  import opened PageWalk
  import opened PageTables

  const HHDM_BASE: nat := 0xffff_8880_0000_0000

  /** HHDM_BASE as the walk sees it: the first address of PML4 slot 273. */
  const HHDM48: nat := 0x8880_0000_0000

  /** Largest physical memory for which HHDM_BASE + phys does not wrap. */
  const HHDM_MAX: nat := 0x7780_0000_0000

  predicate IsAligned(x: nat, a: nat)
    requires a > 0
  {
    And(x, a - 1) == 0
  }

  /** The part of p bytes of memory that whole pages of level l can cover. */
  function Covered(l: nat, p: nat): nat
    requires l <= 2
  {
    p / Span(l) * Span(l)
  }

  /** The page size that covers physical address p of a memory of physMax bytes: the largest that fits. */
  function LeafLevel(p: nat, physMax: nat): nat {
    if p < Covered(2, physMax) then 2 else if p < Covered(1, physMax) then 1 else 0
  }

  /** PML4 slots that x bytes of direct map touch: x / 2^39, rounded up. */
  function SlotCount(x: nat): nat { (x + 0x7f_ffff_ffff) / 0x80_0000_0000 }

  /** A 1 GiB page is used exactly where the whole GiB around p lies in memory, and a 2 MiB page at least where the
      whole 2 MiB do. */
  lemma LargestThatFits(p: nat, physMax: nat)
    requires p < physMax
    ensures LeafLevel(p, physMax) == 2 <==> (p / 0x4000_0000 + 1) * 0x4000_0000 <= physMax
    ensures LeafLevel(p, physMax) >= 1 <==> (p / 0x20_0000 + 1) * 0x20_0000 <= physMax
    ensures LeafLevel(p, physMax) <= 2
  {
    WholePage(p, physMax, 0x4000_0000);
    WholePage(p, physMax, 0x20_0000);
    CoveredSpans(physMax);
    if p < physMax / 0x4000_0000 * 0x4000_0000 {
      assert physMax / 0x4000_0000 * 0x4000_0000 <= physMax / 0x20_0000 * 0x20_0000 by {
        LargeInHuge(physMax);
      }
    }
    hide Covered;
  }

  lemma CoveredSpans(physMax: nat)
    ensures Covered(2, physMax) == physMax / 0x4000_0000 * 0x4000_0000
    ensures Covered(1, physMax) == physMax / 0x20_0000 * 0x20_0000
  {
  }

  lemma LargeInHuge(x: nat)
    ensures x / 0x4000_0000 * 0x4000_0000 <= x / 0x20_0000 * 0x20_0000
  {
    var q := x / 0x4000_0000;
    assert x == q * 0x4000_0000 + x % 0x4000_0000;
    assert x / 0x20_0000 >= q * 512;
  }

  /** p lies below the last whole page of x bytes exactly if its own page does. */
  lemma WholePage(p: nat, x: nat, d: nat)
    requires d == 0x4000_0000 || d == 0x20_0000
    ensures p < x / d * d <==> (p / d + 1) * d <= x
  {
    if d == 0x4000_0000 {
      assert p < x / 0x4000_0000 * 0x4000_0000 <==> p / 0x4000_0000 < x / 0x4000_0000;
    } else {
      assert p < x / 0x20_0000 * 0x20_0000 <==> p / 0x20_0000 < x / 0x20_0000;
    }
  }

  /** The number of slots is the least that covers x bytes. */
  lemma LeastSlots(x: nat)
    ensures x <= SlotCount(x) * 0x80_0000_0000 < x + 0x80_0000_0000
  {
  }

  /** The page-directory-pointer tables of the first k PML4 slots of the direct map. */
  ghost function Pdpts(k: nat): set<Node> {
    if k == 0 then {} else Pdpts(k - 1) + {Node(2, 273 + k - 1)}
  }

  lemma {:induction false} PdptMembers(k: nat)
    ensures forall n :: n in Pdpts(k) <==> n.level == 2 && 273 <= n.prefix < 273 + k
    ensures |Pdpts(k)| == k
  {
    if k != 0 {
      PdptMembers(k - 1);
    }
  }

  /** The tables that the first x of physMax bytes need. */
  ghost function HhdmTables(x: nat, physMax: nat): set<Node> {
    var dirs := Pdpts(SlotCount(x));
    if x <= Covered(2, physMax) then dirs
    else if x <= Covered(1, physMax) then dirs + {NodeOf(1, HHDM48 + Covered(2, physMax))}
    else dirs + {NodeOf(1, HHDM48 + Covered(2, physMax)), NodeOf(0, HHDM48 + Covered(1, physMax))}
  }

  /** Nothing is mapped in the PML4 slots that the direct map is going to use. */
  ghost predicate HhdmFree(dir: map<Node, nat>, physMax: nat) {
    forall v :: HHDM48 <= v < HHDM48 + physMax ==> NodeOf(2, v) !in dir
  }

  /* ------------------------------ Arithmetic ------------------------------ */

  lemma AlignedTest(x: nat, k: nat)
    ensures IsAligned(x, Pow2(k)) <==> x % Pow2(k) == 0
  {
    hide And;
    AndField(x, 0, k);
  }

  lemma AlignedSpans(x: nat)
    ensures IsAligned(x, 0x4000_0000) <==> x % 0x4000_0000 == 0
    ensures IsAligned(x, 0x20_0000) <==> x % 0x20_0000 == 0
  {
    hide IsAligned;
    Pow2Values();
    AlignedTest(x, 30);
    AlignedTest(x, 21);
  }

  lemma HhdmAddress(phys: nat)
    requires phys < HHDM_MAX
    ensures HHDM_BASE + phys < WORD && Low48(HHDM_BASE + phys, HHDM48 + phys)
    ensures (HHDM_BASE + phys) % 0x4000_0000 == phys % 0x4000_0000
    ensures (HHDM_BASE + phys) % 0x20_0000 == phys % 0x20_0000
  {
    DivModUnique(HHDM_BASE + phys, VA_LIMIT, 0xffff, HHDM48 + phys);
  }

  lemma FirstSlots(l: nat, phys: nat)
    requires l <= 2 && PageBase(l, phys) && phys + Span(l) <= HHDM_MAX
    ensures NodeOf(2, HHDM48 + phys) == Node(2, 273 + phys / 0x80_0000_0000)
    ensures SlotCount(phys + Span(l)) == phys / 0x80_0000_0000 + 1
    ensures SlotCount(phys) <= SlotCount(phys + Span(l)) <= SlotCount(phys) + 1
  {
    var q := phys / 0x80_0000_0000;
    assert phys + Span(l) <= 0x80_0000_0000 * (q + 1);
  }

  /** Each round adds the page-directory-pointer table of its address. */
  lemma PdptStep(l: nat, phys: nat)
    requires l <= 2 && PageBase(l, phys) && phys + Span(l) <= HHDM_MAX
    ensures Pdpts(SlotCount(phys + Span(l))) == Pdpts(SlotCount(phys)) + {NodeOf(2, HHDM48 + phys)}
  {
    hide SlotCount, NodeOf, Span, Pdpts, PageBase;
    FirstSlots(l, phys);
    PdptMembers(SlotCount(phys));
    PdptMembers(SlotCount(phys + Span(l)));
  }

  lemma CoveredOrder(p: nat)
    ensures Covered(2, p) <= Covered(1, p) <= p < Covered(1, p) + Span(1) && p < Covered(2, p) + Span(2)
    ensures PageBase(2, Covered(2, p)) && PageBase(1, Covered(2, p)) && PageBase(1, Covered(1, p))
    ensures PageBase(0, Covered(1, p))
  {
    var a, b := p / Span(2), p / Span(1);
    DivModUnique(Span(2) * a, Span(2), a, 0);
    DivModUnique(Span(2) * a, Span(1), 512 * a, 0);
    DivModUnique(Span(1) * b, Span(1), b, 0);
    DivModUnique(Span(1) * b, PAGE, 512 * b, 0);
  }

  /** A whole page of level l that still fits lies inside what level l covers. */
  lemma Fits(l: nat, phys: nat, physMax: nat)
    requires l <= 2 && PageBase(l, phys) && phys <= physMax
    ensures phys + Span(l) <= physMax ==> phys + Span(l) <= Covered(l, physMax) && PageBase(l, phys + Span(l))
    ensures phys + Span(l) > physMax ==> phys == Covered(l, physMax)
  {
    WholePages(phys, physMax, Span(l));
  }

  lemma WholePages(x: nat, y: nat, s: nat)
    requires s > 0 && x % s == 0 && x <= y
    ensures (x + s) % s == 0
    ensures if x + s <= y then x + s <= y / s * s else y / s * s == x
  {
    var a := x / s;
    DivModUnique(x + s, s, a + 1, 0);
    if x + s <= y {
      var d := y - (x + s);
      DivModUnique(y, s, a + 1 + d / s, d % s);
    } else {
      DivModUnique(y, s, a, y - x);
    }
  }

  /** A round of level l maps addresses whose page size is Span(l). */
  lemma RoundLevel(l: nat, phys: nat, physMax: nat)
    requires l <= 2 && PageBase(l, phys) && phys + Span(l) <= physMax
    requires l < 2 ==> Covered(l + 1, physMax) <= phys
    ensures PageBase(l, phys + Span(l))
    ensures forall p :: phys <= p < phys + Span(l) ==> LeafLevel(p, physMax) == l
  {
    hide Covered, Span, PageBase;
    Fits(l, phys, physMax);
    CoveredOrder(physMax);
  }

  lemma GiBRound(phys: nat, physMax: nat)
    requires PageBase(2, phys) && phys + Span(2) <= physMax <= HHDM_MAX
    ensures HhdmTables(phys + Span(2), physMax) == HhdmTables(phys, physMax) + {NodeOf(2, HHDM48 + phys)}
  {
    hide Covered, SlotCount, NodeOf, Span, Pdpts, PageBase;
    Fits(2, phys, physMax);
    CoveredOrder(physMax);
    PdptStep(2, phys);
  }

  lemma MiBRound(phys: nat, physMax: nat)
    requires PageBase(1, phys) && Covered(2, physMax) <= phys && phys + Span(1) <= physMax <= HHDM_MAX
    ensures HhdmTables(phys + Span(1), physMax) ==
            HhdmTables(phys, physMax) + {NodeOf(2, HHDM48 + phys), NodeOf(1, HHDM48 + phys)}
  {
    hide Covered, SlotCount, NodeOf, Span, Pdpts, PageBase;
    Fits(1, phys, physMax);
    CoveredOrder(physMax);
    PdptStep(1, phys);
    SameTable(1, phys, Covered(2, physMax));
    var dirs, n2, n1 := Pdpts(SlotCount(phys)), NodeOf(2, HHDM48 + phys), NodeOf(1, HHDM48 + phys);
    assert HhdmTables(phys + Span(1), physMax) == dirs + {n2} + {n1};
    assert HhdmTables(phys, physMax) == (if phys == Covered(2, physMax) then dirs else dirs + {n1});
    assert HhdmTables(phys, physMax) + {n2, n1} == dirs + {n2} + {n1};
  }

  /** Before the last phase there is no page table. */
  lemma NoPageTableYet(phys: nat, physMax: nat)
    requires phys <= Covered(1, physMax)
    ensures forall n :: n in HhdmTables(phys, physMax) ==> n.level > 0
    ensures phys <= Covered(2, physMax) ==> forall n :: n in HhdmTables(phys, physMax) ==> n.level > 1
  {
    hide Covered, SlotCount, Pdpts;
    PdptMembers(SlotCount(phys));
  }

  lemma PageRound(phys: nat, physMax: nat)
    requires PageBase(0, phys) && Covered(1, physMax) <= phys && phys + PAGE <= physMax <= HHDM_MAX
    ensures HhdmTables(phys + PAGE, physMax) == HhdmTables(phys, physMax) + Path(HHDM48 + phys)
  {
    hide Covered, SlotCount, NodeOf, Pdpts, PageBase;
    CoveredOrder(physMax);
    PdptStep(0, phys);
    SameTable(0, phys, Covered(1, physMax));
    SameTable(1, phys, Covered(2, physMax));
    var v := HHDM48 + phys;
    var dirs, n2, n1, n0 := Pdpts(SlotCount(phys)), NodeOf(2, v), NodeOf(1, v), NodeOf(0, v);
    assert HhdmTables(phys + PAGE, physMax) == dirs + {n2} + {n1, n0};
    var before := HhdmTables(phys, physMax);
    assert before == dirs || before == dirs + {n1} || before == dirs + {n1, n0};
    assert before + {n2, n1, n0} == dirs + {n2} + {n1, n0};
  }

  /** Addresses less than a slot of level l + 1 above an aligned one share its level-l table. */
  lemma SameTable(l: nat, phys: nat, base: nat)
    requires l <= 1 && PageBase(l + 1, base) && base <= phys < base + Span(l + 1)
    ensures NodeOf(l, HHDM48 + phys) == NodeOf(l, HHDM48 + base)
  {
    var s := Span(l + 1);
    assert HHDM48 % s == 0;
    DivModUnique(HHDM48 + phys, s, HHDM48 / s + base / s, phys - base);
    DivModUnique(HHDM48 + base, s, HHDM48 / s + base / s, 0);
  }

  /** The addresses that one page of level l of the direct map covers. */
  lemma PageOf(l: nat, phys: nat)
    requires l <= 2 && PageBase(l, phys)
    ensures forall v: nat :: Slot(l, v) == Slot(l, HHDM48 + phys) <==> HHDM48 + phys <= v < HHDM48 + phys + Span(l)
    ensures forall v: nat :: HHDM48 + phys <= v < HHDM48 + phys + Span(l) ==> phys + Offset(l, v) == v - HHDM48
  {
    HhdmBlock(l, phys);
    hide Span;
    forall v: nat
      ensures Slot(l, v) == Slot(l, HHDM48 + phys) <==> HHDM48 + phys <= v < HHDM48 + phys + Span(l)
      ensures HHDM48 + phys <= v < HHDM48 + phys + Span(l) ==> phys + Offset(l, v) == v - HHDM48
    {
      BlockOf(HHDM48 + phys, Span(l), v);
    }
  }

  lemma HhdmBlock(l: nat, phys: nat)
    requires l <= 2 && PageBase(l, phys)
    ensures PageBase(l, HHDM48 + phys)
  {
    DivModUnique(HHDM48 + phys, Span(l), HHDM48 / Span(l) + phys / Span(l), 0);
  }

  lemma BlockOf(b: nat, s: nat, v: nat)
    requires s > 0 && b % s == 0
    ensures v / s == b / s <==> b <= v < b + s
    ensures b <= v < b + s ==> v % s == v - b
  {
    if b <= v < b + s {
      DivModUnique(v, s, b / s, v - b);
    }
  }

  /* ------------------------------ The builder ------------------------------ */

  /** One round of the 1 GiB loop. */
  method MapGiB(t: Tables, phys: nat) returns (r: Result<()>)
    requires t.Valid() && PageBase(2, phys) && phys + Span(2) <= HHDM_MAX
    requires t.View(HHDM48 + phys) == Unmapped && NodeOf(1, HHDM48 + phys) !in t.dir
    modifies t`mem, t`pool, t`dir
    ensures t.Valid()
    ensures r.Ok? ==> t.dir.Keys == old(t.dir.Keys) + {NodeOf(2, HHDM48 + phys)}
    ensures r.Ok? ==>
              forall v :: 0 <= v < VA_LIMIT ==>
                t.View(v) == if Slot(2, v) == Slot(2, HHDM48 + phys) then Mapped(phys + Offset(2, v), 2)
                             else old(t.View(v))
    ensures r.Err? ==> t.pool == [] && forall v :: 0 <= v < VA_LIMIT ==> t.View(v) == old(t.View(v))
    ensures r.Err? ==> t.dir.Keys == old(t.dir.Keys) && NodeOf(2, HHDM48 + phys) !in t.dir
  {
    hide Present, Ps, Addr, LeafOf, Slot, Index, Child, Parent, NodeOf, And, Or, Walk, PoolOk, Budget, Tree;
    hide Pml4Index, PdptIndex, Low48;
    var va := HHDM_BASE + phys;
    ghost var v := HHDM48 + phys;
    HhdmAddress(phys);
    Indices(va, v);
    RootOf(v);
    NodeOfChild(3, v);
    var pdpt := t.EnsurePdpt(t.root, Pml4Index(va));
    if pdpt.Err? {
      return Err;
    }
    AbsentSlot(t.mem, t.root, t.dir, 2, v);
    TablePages(t.mem, t.root, t.dir, NodeOf(2, v));
    var e := t.mem[pdpt.value][PdptIndex(va)];
    EntryFields(e);
    if And(e, PTE_P) == 0 {
      PageFrame(2, phys);
      t.WriteLeaf(pdpt.value, PdptIndex(va), Or(Or(Or(And(phys, ADDR_MASK), PTE_P), PTE_RW), PTE_PS), 2, v, phys);
    }
    r := Ok(());
  }

  /** One round of the 2 MiB loop. */
  method MapTwoMiB(t: Tables, phys: nat) returns (r: Result<()>)
    requires t.Valid() && PageBase(1, phys) && phys + Span(1) <= HHDM_MAX
    requires t.View(HHDM48 + phys) == Unmapped && NodeOf(0, HHDM48 + phys) !in t.dir
    modifies t`mem, t`pool, t`dir
    ensures t.Valid()
    ensures r.Ok? ==> t.dir.Keys == old(t.dir.Keys) + {NodeOf(2, HHDM48 + phys), NodeOf(1, HHDM48 + phys)}
    ensures r.Ok? ==>
              forall v :: 0 <= v < VA_LIMIT ==>
                t.View(v) == if Slot(1, v) == Slot(1, HHDM48 + phys) then Mapped(phys + Offset(1, v), 1)
                             else old(t.View(v))
    ensures r.Err? ==> t.pool == [] && forall v :: 0 <= v < VA_LIMIT ==> t.View(v) == old(t.View(v))
    ensures r.Err? ==> t.dir.Keys <= old(t.dir.Keys) + {NodeOf(2, HHDM48 + phys), NodeOf(1, HHDM48 + phys)}
    ensures r.Err? ==> NodeOf(1, HHDM48 + phys) !in t.dir
  {
    hide Present, Ps, Addr, LeafOf, Slot, Index, Child, Parent, NodeOf, And, Or, Walk, PoolOk, Budget, Tree;
    hide PdIndex, Low48;
    var va := HHDM_BASE + phys;
    ghost var v := HHDM48 + phys;
    HhdmAddress(phys);
    Indices(va, v);
    var pd := t.EnsureDirectory(va, v);
    if pd.Err? {
      return Err;
    }
    AbsentSlot(t.mem, t.root, t.dir, 1, v);
    TablePages(t.mem, t.root, t.dir, NodeOf(1, v));
    var e := t.mem[pd.value][PdIndex(va)];
    EntryFields(e);
    if And(e, PTE_P) == 0 {
      PageFrame(1, phys);
      t.WriteLeaf(pd.value, PdIndex(va), Or(Or(Or(And(phys, ADDR_MASK), PTE_P), PTE_RW), PTE_PS), 1, v, phys);
    }
    r := Ok(());
  }

  lemma PageFrame(l: nat, phys: nat)
    requires 1 <= l <= 2 && PageBase(l, phys) && phys < HHDM_MAX
    ensures LeafFor(Or(Or(Or(And(phys, ADDR_MASK), PTE_P), PTE_RW), PTE_PS), l, phys)
  {
    hide And, Or;
    assert phys % PAGE == 0;
    MaskPage(phys);
    EntryPack(phys);
  }

  /** How v translates once the first x of physMax bytes are mapped on top of the tables mem0. */
  ghost function HhdmView(mem0: Memory, root: nat, x: nat, physMax: nat, v: nat): Translation {
    if HHDM48 <= v < HHDM48 + x then Mapped(v - HHDM48, LeafLevel(v - HHDM48, physMax)) else Walk(mem0, root, v)
  }

  /** The state between two rounds: exactly the first x bytes are mapped, with exactly the tables they need. */
  ghost predicate Progress(t: Tables, mem0: Memory, dir0: map<Node, nat>, x: nat, physMax: nat)
    reads t
  {
    && t.Valid()
    && (forall v :: 0 <= v < VA_LIMIT ==> t.View(v) == HhdmView(mem0, t.root, x, physMax, v))
    && t.dir.Keys == dir0.Keys + HhdmTables(x, physMax)
  }

  /** Some tables of the direct map are there at most, and one of them is not. */
  ghost predicate Short(dir: map<Node, nat>, dir0: map<Node, nat>, physMax: nat) {
    && dir.Keys <= dir0.Keys + HhdmTables(physMax, physMax)
    && exists n :: n in HhdmTables(physMax, physMax) && n !in dir
  }

  /** The state in which an allocation failed: addresses outside the direct map translate as before. */
  ghost predicate Failed(t: Tables, mem0: Memory, dir0: map<Node, nat>, physMax: nat)
    reads t
  {
    && t.Valid() && t.pool == [] && Short(t.dir, dir0, physMax)
    && forall v :: 0 <= v < VA_LIMIT && !(HHDM48 <= v < HHDM48 + physMax) ==> t.View(v) == Walk(mem0, t.root, v)
  }

  ghost predicate Untouched(mem0: Memory, root: nat, dir0: map<Node, nat>, physMax: nat) {
    && physMax % PAGE == 0 && physMax <= HHDM_MAX
    && (forall v :: HHDM48 <= v < HHDM48 + physMax ==> Walk(mem0, root, v) == Unmapped)
    && (forall v, l :: 0 <= l <= 2 && HHDM48 <= v < HHDM48 + physMax ==> NodeOf(l, v) !in dir0)
  }

  lemma FreeIsUntouched(mem0: Memory, root: nat, dir0: map<Node, nat>, physMax: nat)
    requires Tree(mem0, root, dir0) && HhdmFree(dir0, physMax) && physMax % PAGE == 0 && physMax <= HHDM_MAX
    ensures Untouched(mem0, root, dir0, physMax)
  {
    hide Walk, Tree, NodeOf;
    forall v | HHDM48 <= v < HHDM48 + physMax
      ensures Walk(mem0, root, v) == Unmapped
    {
      NoTables(mem0, root, dir0, v);
    }
    forall v, l | 0 <= l <= 2 && HHDM48 <= v < HHDM48 + physMax
      ensures NodeOf(l, v) !in dir0
    {
      NoTables(mem0, root, dir0, v);
    }
  }

  /** What one round of level l does to the view is what mapping Span(l) more bytes means. */
  lemma ViewStep(mem0: Memory, root: nat, l: nat, phys: nat, physMax: nat)
    requires l <= 2 && PageBase(l, phys) && phys + Span(l) <= physMax
    requires l < 2 ==> Covered(l + 1, physMax) <= phys
    ensures forall v :: 0 <= v < VA_LIMIT ==>
              HhdmView(mem0, root, phys + Span(l), physMax, v) ==
              if Slot(l, v) == Slot(l, HHDM48 + phys) then Mapped(phys + Offset(l, v), l)
              else HhdmView(mem0, root, phys, physMax, v)
  {
    hide Walk, Covered, LeafLevel, Slot, Span, Offset, PageBase;
    RoundLevel(l, phys, physMax);
    PageOf(l, phys);
  }

  method GiBStep(t: Tables, phys: nat, physMax: nat, ghost mem0: Memory, ghost dir0: map<Node, nat>)
    returns (r: Result<()>)
    requires Progress(t, mem0, dir0, phys, physMax) && Untouched(mem0, t.root, dir0, physMax)
    requires PageBase(2, phys) && phys + Span(2) <= physMax
    modifies t`mem, t`pool, t`dir
    ensures r.Ok? ==> Progress(t, mem0, dir0, phys + Span(2), physMax) && PageBase(2, phys + Span(2))
    ensures r.Err? ==> Failed(t, mem0, dir0, physMax)
  {
    hide Walk, Tree, PoolOk, Budget, NodeOf, HhdmTables, Covered, LeafLevel, Slot, Span, Offset, PageBase;
    GiBRound(phys, physMax);
    TablesGrow(phys + Span(2), physMax);
    Fits(2, phys, physMax);
    CoveredOrder(physMax);
    NoPageTableYet(phys, physMax);
    ViewStep(mem0, t.root, 2, phys, physMax);
    r := MapGiB(t, phys);
  }

  method MiBStep(t: Tables, phys: nat, physMax: nat, ghost mem0: Memory, ghost dir0: map<Node, nat>)
    returns (r: Result<()>)
    requires Progress(t, mem0, dir0, phys, physMax) && Untouched(mem0, t.root, dir0, physMax)
    requires PageBase(1, phys) && Covered(2, physMax) <= phys && phys + Span(1) <= physMax
    modifies t`mem, t`pool, t`dir
    ensures r.Ok? ==> Progress(t, mem0, dir0, phys + Span(1), physMax) && PageBase(1, phys + Span(1))
    ensures r.Err? ==> Failed(t, mem0, dir0, physMax)
  {
    hide Walk, Tree, PoolOk, Budget, NodeOf, HhdmTables, Covered, LeafLevel, Slot, Span, Offset, PageBase;
    MiBRound(phys, physMax);
    TablesGrow(phys + Span(1), physMax);
    Fits(1, phys, physMax);
    NoPageTableYet(phys, physMax);
    ViewStep(mem0, t.root, 1, phys, physMax);
    r := MapTwoMiB(t, phys);
  }

  method PageStep(t: Tables, phys: nat, physMax: nat, ghost mem0: Memory, ghost dir0: map<Node, nat>)
    returns (r: Result<()>)
    requires Progress(t, mem0, dir0, phys, physMax) && Untouched(mem0, t.root, dir0, physMax)
    requires PageBase(0, phys) && Covered(1, physMax) <= phys && phys + PAGE <= physMax
    modifies t`mem, t`pool, t`dir
    ensures r.Ok? ==> Progress(t, mem0, dir0, phys + PAGE, physMax) && PageBase(0, phys + PAGE)
    ensures r.Err? ==> Failed(t, mem0, dir0, physMax)
  {
    hide Walk, Tree, PoolOk, Budget, NodeOf, HhdmTables, Covered, LeafLevel, Slot, Low48, Path, Offset, PageBase, PageFloor;
    PageRound(phys, physMax);
    TablesGrow(phys + PAGE, physMax);
    PathHas(HHDM48 + phys);
    Fits(0, phys, physMax);
    ViewStep(mem0, t.root, 0, phys, physMax);
    HhdmAddress(phys);
    BaseIsFloor(phys);
    r := t.Map4kibPage(HHDM_BASE + phys, phys, HHDM48 + phys);
  }

  /** Everything below physMax becomes visible at HHDM_BASE, each address through the largest page that fits, with
      no table that is not needed; nothing else changes. Only a failed allocation makes it give up. */
  method MapHhdmHuge(t: Tables, physMax: nat) returns (r: Result<()>)
    requires t.Valid() && physMax % PAGE == 0 && physMax <= HHDM_MAX && HhdmFree(t.dir, physMax)
    modifies t`mem, t`pool, t`dir
    ensures t.Valid()
    ensures r.Ok? ==>
              forall v :: 0 <= v < VA_LIMIT ==>
                t.View(v) == if HHDM48 <= v < HHDM48 + physMax
                             then Mapped(v - HHDM48, LeafLevel(v - HHDM48, physMax))
                             else old(t.View(v))
    ensures forall v :: 0 <= v < VA_LIMIT && t.View(v).Mapped? ==> t.Access(v) == KERNEL
    ensures r.Ok? ==> t.dir.Keys == old(t.dir.Keys) + HhdmTables(physMax, physMax)
    ensures r.Ok? ==> old(|t.pool|) == |t.pool| + TableCost(physMax)
    ensures r.Err? ==> t.pool == [] && old(|t.pool|) < TableCost(physMax)
    ensures r.Err? ==> Short(t.dir, old(t.dir), physMax)
    ensures forall v :: 0 <= v < VA_LIMIT && !(HHDM48 <= v < HHDM48 + physMax) ==> t.View(v) == old(t.View(v))
  {
    hide Walk, Tree, PoolOk, Budget, NodeOf, Covered, LeafLevel, Slot, IsAligned, HhdmTables, Untouched, HhdmFree, PageBase, TableCost, Short, RightsFrom;
    FreeIsUntouched(t.mem, t.root, t.dir, physMax);
    StartTables(physMax);
    CoveredOrder(physMax);
    ghost var mem0, dir0 := t.mem, t.dir;
    var phys := 0;

    while phys < physMax
      invariant Progress(t, mem0, dir0, phys, physMax) && PageBase(2, phys) && phys <= physMax
    {
      LoopTest(phys);
      if physMax - phys >= 0x4000_0000 && IsAligned(phys, 0x4000_0000) && IsAligned(HHDM_BASE + phys, 0x4000_0000) {
        var one := GiBStep(t, phys, physMax, mem0, dir0);
        if one.Err? {
          PagesShort(mem0, t.root, dir0, old(t.pool), t.dir, t.pool, t.budget, physMax);
          t.AccessOfMapped();
          return Err;
        }
        phys := phys + 0x4000_0000;
      } else {
        break;
      }
    }
    Fits(2, phys, physMax);

    while phys < physMax
      invariant Progress(t, mem0, dir0, phys, physMax) && PageBase(1, phys) && Covered(2, physMax) <= phys <= physMax
    {
      LoopTest(phys);
      if physMax - phys >= 0x20_0000 && IsAligned(phys, 0x20_0000) && IsAligned(HHDM_BASE + phys, 0x20_0000) {
        var one := MiBStep(t, phys, physMax, mem0, dir0);
        if one.Err? {
          PagesShort(mem0, t.root, dir0, old(t.pool), t.dir, t.pool, t.budget, physMax);
          t.AccessOfMapped();
          return Err;
        }
        phys := phys + 0x20_0000;
      } else {
        break;
      }
    }
    Fits(1, phys, physMax);

    while phys < physMax
      invariant Progress(t, mem0, dir0, phys, physMax) && PageBase(0, phys) && Covered(1, physMax) <= phys <= physMax
    {
      LastPage(phys, physMax);
      var one := PageStep(t, phys, physMax, mem0, dir0);
      if one.Err? {
        t.AccessOfMapped();
        PagesShort(mem0, t.root, dir0, old(t.pool), t.dir, t.pool, t.budget, physMax);
        return Err;
      }
      phys := phys + 4096;
    }
    PagesUsed(mem0, t.root, dir0, old(t.pool), t.dir, t.pool, t.budget, physMax);
    t.AccessOfMapped();
    r := Ok(());
  }

  /** Pages that the direct map of physMax bytes takes from the firmware. */
  function TableCost(physMax: nat): nat {
    SlotCount(physMax)
    + (if physMax % 0x4000_0000 != 0 then 1 else 0)
    + (if physMax % 0x20_0000 != 0 then 1 else 0)
  }

  lemma UncoveredTails(physMax: nat)
    ensures Covered(2, physMax) <= physMax && Covered(1, physMax) <= physMax
    ensures physMax > Covered(2, physMax) <==> physMax % 0x4000_0000 != 0
    ensures physMax > Covered(1, physMax) <==> physMax % 0x20_0000 != 0
    ensures physMax % 0x4000_0000 == 0 ==> physMax % 0x20_0000 == 0
  {
  }

  lemma TablesCounted(physMax: nat)
    ensures |HhdmTables(physMax, physMax)| == TableCost(physMax)
  {
    hide NodeOf, Pdpts, Covered, SlotCount;
    PdptMembers(SlotCount(physMax));
    UncoveredTails(physMax);
    var n1, n0 := NodeOf(1, HHDM48 + Covered(2, physMax)), NodeOf(0, HHDM48 + Covered(1, physMax));
    assert {n1, n0} == {n1} + {n0};
  }

  /** Every table of the direct map serves one of its addresses. */
  lemma TablesServe(physMax: nat, n: Node) returns (v: nat)
    requires n in HhdmTables(physMax, physMax)
    ensures HHDM48 <= v < HHDM48 + physMax && n.level <= 2 && n == NodeOf(n.level, v)
    ensures LeafLevel(v - HHDM48, physMax) <= n.level
  {
    hide Pdpts, Covered, SlotCount, NodeOf, LeafLevel;
    PdptMembers(SlotCount(physMax));
    CoverLevels(physMax);
    UncoveredTails(physMax);
    if n.level == 2 {
      var k := n.prefix - 273;
      SlotStart(k, physMax);
      v := HHDM48 + 0x80_0000_0000 * k;
    } else if n.level == 1 {
      v := HHDM48 + Covered(2, physMax);
    } else {
      v := HHDM48 + Covered(1, physMax);
    }
  }

  lemma SlotStart(k: nat, physMax: nat)
    requires k < SlotCount(physMax)
    ensures 0x80_0000_0000 * k < physMax
    ensures NodeOf(2, HHDM48 + 0x80_0000_0000 * k) == Node(2, 273 + k)
    ensures LeafLevel(0x80_0000_0000 * k, physMax) <= 2
  {
    DivModUnique(HHDM48 + 0x80_0000_0000 * k, 0x80_0000_0000, 273 + k, 0);
  }

  lemma CoverLevels(physMax: nat)
    ensures LeafLevel(Covered(2, physMax), physMax) <= 1 && LeafLevel(Covered(1, physMax), physMax) == 0
  {
    hide Covered;
    CoveredOrder(physMax);
  }

  lemma PagesUsed(mem0: Memory, root: nat, dir0: map<Node, nat>, pool0: seq<nat>, dir1: map<Node, nat>, pool1: seq<nat>,
                  budget: nat, physMax: nat)
    requires Untouched(mem0, root, dir0, physMax) && Budget(dir0, pool0, budget) && Budget(dir1, pool1, budget)
    requires dir1.Keys == dir0.Keys + HhdmTables(physMax, physMax)
    ensures |pool0| == |pool1| + TableCost(physMax)
  {
    hide HhdmTables, NodeOf, Walk, TableCost;
    TablesCounted(physMax);
    forall n | n in HhdmTables(physMax, physMax)
      ensures n !in dir0
    {
      var v := TablesServe(physMax, n);
    }
    assert |dir0.Keys + HhdmTables(physMax, physMax)| == |dir0.Keys| + |HhdmTables(physMax, physMax)|;
    assert |dir0| == |dir0.Keys| && |dir1| == |dir1.Keys|;
  }

  lemma {:induction false} SmallerSet<X>(a: set<X>, b: set<X>)
    requires a <= b
    ensures |a| <= |b|
    decreases a
  {
    if x :| x in a {
      SmallerSet(a - {x}, b - {x});
    }
  }

  /** A direct map that is short of a table was short of pages. */
  lemma PagesShort(mem0: Memory, root: nat, dir0: map<Node, nat>, pool0: seq<nat>, dir1: map<Node, nat>, pool1: seq<nat>,
                   budget: nat, physMax: nat)
    requires Untouched(mem0, root, dir0, physMax) && Budget(dir0, pool0, budget) && Budget(dir1, pool1, budget)
    requires Short(dir1, dir0, physMax) && pool1 == []
    ensures |pool0| < TableCost(physMax)
  {
    hide HhdmTables, NodeOf, Walk, TableCost;
    TablesCounted(physMax);
    var tables := HhdmTables(physMax, physMax);
    var n :| n in tables && n !in dir1;
    forall m | m in tables
      ensures m !in dir0
    {
      var v := TablesServe(physMax, m);
    }
    var all := dir0.Keys + tables;
    assert |all| == |dir0.Keys| + |tables|;
    SmallerSet(dir1.Keys, all - {n});
    assert |dir0| == |dir0.Keys| && |dir1| == |dir1.Keys|;
  }

  /** The tables needed so far are among those needed in the end. */
  lemma TablesGrow(x: nat, physMax: nat)
    requires x <= physMax
    ensures HhdmTables(x, physMax) <= HhdmTables(physMax, physMax)
  {
    hide Pdpts, NodeOf;
    SlotsGrow(x, physMax);
    PdptMembers(SlotCount(x));
    PdptMembers(SlotCount(physMax));
  }

  lemma SlotsGrow(x: nat, y: nat)
    requires x <= y
    ensures SlotCount(x) <= SlotCount(y)
  {
  }

  lemma PathHas(v: nat)
    ensures NodeOf(0, v) in Path(v)
  {
  }

  lemma StartTables(physMax: nat)
    ensures HhdmTables(0, physMax) == {} && PageBase(2, 0)
  {
  }

  lemma BaseIsFloor(phys: nat)
    requires PageBase(0, phys)
    ensures PageFloor(phys) == phys
  {
  }

  lemma LastPage(phys: nat, physMax: nat)
    requires PageBase(0, phys) && physMax % PAGE == 0 && phys < physMax
    ensures phys + PAGE <= physMax
  {
  }

  lemma LoopTest(phys: nat)
    requires phys < HHDM_MAX
    ensures IsAligned(phys, 0x4000_0000) <==> PageBase(2, phys)
    ensures IsAligned(HHDM_BASE + phys, 0x4000_0000) <==> PageBase(2, phys)
    ensures IsAligned(phys, 0x20_0000) <==> PageBase(1, phys)
    ensures IsAligned(HHDM_BASE + phys, 0x20_0000) <==> PageBase(1, phys)
  {
    hide IsAligned;
    AlignedSpans(phys);
    AlignedSpans(HHDM_BASE + phys);
    HhdmAddress(phys);
  }
}

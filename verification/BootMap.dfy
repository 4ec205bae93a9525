/** The address space the loader hands to the kernel: `build_pagetables_exec`, phase by phase, and the simple
    piecewise map that it amounts to. */
module BootMap {

  import opened Wrappers
  import opened Bits
  import opened PageWalk
  import opened PageTables
  import opened Hhdm

  const TWO_MIB: nat := 0x20_0000

  /** What `build_pagetables_exec` is asked for; `identEnd` and `memEnd` are the page-rounded `ident_bytes` and
      `phys_max`. */
  datatype Layout = Layout(loadBase: nat, minVaddr: nat, maxVaddr: nat, identEnd: nat, memEnd: nat)

  function Min(a: nat, b: nat): nat { if a < b then a else b }
  function Max(a: nat, b: nat): nat { if a < b then b else a }

  function Delta(y: Layout): int { y.loadBase - y.minVaddr }

  predicate InKernel(y: Layout, v: nat) { PageFloor(y.minVaddr) <= v < y.maxVaddr }

  /** Addresses below the kernel image that the low identity phase covers. */
  predicate BelowKernel(y: Layout, v: nat) { PAGE <= v < PageCeil(Min(y.minVaddr, TWO_MIB)) }

  predicate AboveKernel(y: Layout, v: nat) { y.maxVaddr <= v < TWO_MIB }

  predicate HighIdent(y: Layout, x: nat, v: nat) { TWO_MIB <= v < x && !InKernel(y, v) }

  function KernelPage(y: Layout, v: nat): Translation {
    Mapped(TargetPage(PageFloor(v), Delta(y)) + Offset(0, v), 0)
  }

  /** The view after the two kernel phases. */
  function KernelView(y: Layout, v: nat): Translation {
    if InKernel(y, v) then KernelPage(y, v) else Unmapped
  }

  /** The view after the low identity phases. */
  function LowView(y: Layout, v: nat): Translation {
    if BelowKernel(y, v) || AboveKernel(y, v) then Mapped(v, 0) else KernelView(y, v)
  }

  /** The view once the identity loop has reached x. */
  function IdentView(y: Layout, x: nat, v: nat): Translation {
    if HighIdent(y, x, v) then Mapped(v, 0) else LowView(y, v)
  }

  /** The finished address space, for any layout. */
  function BootView(y: Layout, v: nat): Translation {
    if HHDM48 <= v < HHDM48 + y.memEnd then Mapped(v - HHDM48, LeafLevel(v - HHDM48, y.memEnd))
    else IdentView(y, y.identEnd, v)
  }

  /** What the caller guarantees: a non-empty image that ends on a page boundary, and regions that leave the direct
      map its own half of the address space. */
  ghost predicate LayoutOk(y: Layout) {
    && y.minVaddr < y.maxVaddr <= HHDM48 && y.maxVaddr % PAGE == 0
    && y.identEnd <= HHDM48 && y.identEnd % PAGE == 0
    && y.memEnd <= HHDM_MAX && y.memEnd % PAGE == 0
  }

  /** No table of the tree serves an address of the direct map. */
  ghost predicate LowTables(dir: map<Node, nat>) {
    forall n :: n in dir && n.level == 2 ==> n.prefix < 273
  }

  lemma OnPathLow(dir: map<Node, nat>, dir': map<Node, nat>, lo: nat, hi: nat)
    requires LowTables(dir) && hi <= HHDM48
    requires forall n :: n in dir' ==> n in dir || OnPath(n, lo, hi)
    ensures LowTables(dir')
  {
    forall n | n in dir' && n.level == 2
      ensures n.prefix < 273
    {
      if n !in dir {
        var v :| lo <= v < hi && n == NodeOf(n.level, v);
      }
    }
  }

  lemma LowTablesFree(dir: map<Node, nat>, physMax: nat)
    requires LowTables(dir)
    ensures HhdmFree(dir, physMax)
  {
    forall v | HHDM48 <= v < HHDM48 + physMax
      ensures NodeOf(2, v) !in dir
    {
      assert NodeOf(2, v).prefix >= 273;
    }
  }

  /* ------------------------------ Tables ------------------------------ */

  /** The finished address space needs table n: it is the root, or on the walk of some mapped address. */
  ghost predicate Needed(y: Layout, n: Node) {
    n == ROOT || (n.level <= 2 && exists v :: Serves(y, n, v))
  }

  ghost predicate Serves(y: Layout, n: Node, v: nat)
    requires n.level <= 2
  {
    v < VA_LIMIT && n == NodeOf(n.level, v) && BootView(y, v).Mapped? && BootView(y, v).level <= n.level
  }

  /** All the tables that the finished address space needs. */
  ghost function TablesFor(y: Layout): set<Node> {
    set l: nat, p: nat | l <= 3 && p < 0x800_0000 && Needed(y, Node(l, p)) :: Node(l, p)
  }

  lemma TablesForAll(y: Layout)
    ensures forall n :: n in TablesFor(y) <==> Needed(y, n)
  {
    hide BootView;
    forall n | Needed(y, n)
      ensures n in TablesFor(y)
    {
      if n != ROOT {
        var v :| Serves(y, n, v);
        SmallPrefix(n.level, v);
      }
      assert n == Node(n.level, n.prefix);
    }
  }

  lemma SmallPrefix(l: nat, v: nat)
    requires l <= 2 && v < VA_LIMIT
    ensures NodeOf(l, v).prefix < 0x800_0000
  {
  }

  /** No table is there that is not needed. */
  ghost predicate Lean(y: Layout, dir: map<Node, nat>) {
    forall n :: n in dir ==> Needed(y, n)
  }

  /** The pages ran out: only needed tables are there, and one of them is not. */
  ghost predicate OutOfPages(t: Tables, y: Layout)
    reads t
  {
    t.pool == [] && Lean(y, t.dir) && exists n :: Needed(y, n) && n !in t.dir
  }

  predicate SmallPages(y: Layout, lo: nat, hi: nat) {
    hi <= HHDM48 && forall v :: lo <= v < hi ==> BootView(y, v).Mapped? && BootView(y, v).level == 0
  }

  lemma PageNeeds(y: Layout, v: nat, l: nat)
    requires v < HHDM48 && l <= 2 && BootView(y, v).Mapped? && BootView(y, v).level == 0
    ensures Needed(y, NodeOf(l, v))
  {
    hide BootView, NodeOf;
    NodeLevel(l, v);
    assert Serves(y, NodeOf(l, v), v);
  }

  lemma NodeLevel(l: nat, v: nat)
    requires l <= 3
    ensures NodeOf(l, v).level == l
  {
  }

  /** Tables added for small pages of the finished address space are needed ones. */
  lemma RangeLean(y: Layout, dir: map<Node, nat>, dir': map<Node, nat>, lo: nat, hi: nat)
    requires SmallPages(y, lo, hi) && Lean(y, dir)
    requires forall n :: n in dir' ==> n in dir || OnPath(n, lo, hi)
    ensures Lean(y, dir')
    ensures Missing(dir', lo, hi) ==> exists n :: Needed(y, n) && n !in dir'
  {
    hide BootView, NodeOf, Needed;
    forall n | n in dir' && n !in dir
      ensures Needed(y, n)
    {
      var v :| lo <= v < hi && n == NodeOf(n.level, v);
      PageNeeds(y, v, n.level);
    }
    if Missing(dir', lo, hi) {
      var v :| lo <= v < hi && NodeOf(0, v) !in dir';
      PageNeeds(y, v, 0);
    }
  }

  lemma PathLean(y: Layout, dir: map<Node, nat>, dir': map<Node, nat>, v: nat)
    requires v < HHDM48 && BootView(y, v).Mapped? && BootView(y, v).level == 0
    requires Lean(y, dir) && dir'.Keys <= dir.Keys + Path(v)
    ensures Lean(y, dir')
    ensures NodeOf(0, v) !in dir' ==> exists n :: Needed(y, n) && n !in dir'
  {
    hide BootView, NodeOf, Needed;
    PageNeeds(y, v, 0);
    PageNeeds(y, v, 1);
    PageNeeds(y, v, 2);
  }

  /** The tables of the direct map are needed ones. */
  lemma HhdmLean(y: Layout, dir: map<Node, nat>, dir': map<Node, nat>)
    requires LayoutOk(y) && Lean(y, dir) && dir'.Keys <= dir.Keys + HhdmTables(y.memEnd, y.memEnd)
    ensures Lean(y, dir')
    ensures Short(dir', dir, y.memEnd) ==> exists n :: Needed(y, n) && n !in dir'
  {
    hide HhdmTables, NodeOf, IdentView, LeafLevel;
    forall n | n in HhdmTables(y.memEnd, y.memEnd)
      ensures Needed(y, n)
    {
      var v := TablesServe(y.memEnd, n);
      assert Serves(y, n, v);
    }
  }

  /** The finished tables are exactly the needed ones. */
  lemma FinishedTables(mem: Memory, root: nat, dir: map<Node, nat>, y: Layout)
    requires Tree(mem, root, dir) && Lean(y, dir)
    requires forall v :: 0 <= v < VA_LIMIT ==> Walk(mem, root, v) == BootView(y, v)
    ensures dir.Keys == TablesFor(y)
  {
    hide BootView, Walk, NodeOf, TablesFor, SlotLinked;
    TablesForAll(y);
    forall n | Needed(y, n)
      ensures n in dir
    {
      if n != ROOT {
        var v :| Serves(y, n, v);
        WalkTables(mem, root, dir, n.level, v);
      }
    }
  }

  /** Lean tables of which one is missing are fewer than needed. */
  lemma OutOfPagesMeansTooFew(dir: map<Node, nat>, y: Layout)
    requires Lean(y, dir) && exists n :: Needed(y, n) && n !in dir
    ensures |dir| < |TablesFor(y)|
  {
    hide Needed, TablesFor;
    TablesForAll(y);
    var n :| Needed(y, n) && n !in dir;
    SmallerSet(dir.Keys, TablesFor(y) - {n});
    assert |dir| == |dir.Keys|;
  }

  /* ------------------------------ Phases ------------------------------ */

  method KernelPhase(t: Tables, y: Layout) returns (r: Result<()>)
    requires t.Valid() && LayoutOk(y) && LowTables(t.dir) && Lean(y, t.dir)
    requires forall v :: 0 <= v < VA_LIMIT ==> t.View(v) == Unmapped
    modifies t`mem, t`pool, t`dir
    ensures t.Valid() && LowTables(t.dir) && Lean(y, t.dir)
    ensures r.Ok? ==> forall v :: 0 <= v < VA_LIMIT ==> t.View(v) == KernelView(y, v)
    ensures r.Err? ==> OutOfPages(t, y)
  {
    hide Walk, Tree, PoolOk, Budget, OnPath, LowTables, PageFloor, PageCeil, TargetPage, Offset;
    hide Lean, Missing, SmallPages, Needed, BootView;
    KernelRanges(y);
    KernelSmall(y);
    if y.minVaddr < TWO_MIB {
      var lowEnd := Min(y.maxVaddr, TWO_MIB);
      ghost var dir0 := t.dir;
      var one := t.Map4kOffset(y.minVaddr, lowEnd, Delta(y));
      OnPathLow(dir0, t.dir, PageFloor(y.minVaddr), PageCeil(lowEnd));
      RangeLean(y, dir0, t.dir, PageFloor(y.minVaddr), PageCeil(lowEnd));
      if one.Err? {
        return Err;
      }
    }
    var remStart := Max(TWO_MIB, y.minVaddr);
    ghost var dir1 := t.dir;
    r := t.Map4kOffset(remStart, y.maxVaddr, Delta(y));
    OnPathLow(dir1, t.dir, PageFloor(remStart), PageCeil(y.maxVaddr));
    RangeLean(y, dir1, t.dir, PageFloor(remStart), PageCeil(y.maxVaddr));
  }

  /** The ranges that the kernel and low phases map are small pages of the finished address space. */
  lemma KernelSmall(y: Layout)
    requires LayoutOk(y)
    ensures SmallPages(y, PageFloor(y.minVaddr), PageCeil(Min(y.maxVaddr, TWO_MIB)))
    ensures SmallPages(y, PageFloor(Max(TWO_MIB, y.minVaddr)), PageCeil(y.maxVaddr))
  {
    hide PageFloor, PageCeil, LeafLevel, TargetPage, Offset;
    KernelRanges(y);
  }

  lemma LowSmall(y: Layout)
    requires LayoutOk(y)
    ensures SmallPages(y, PageFloor(PAGE), PageCeil(Min(y.minVaddr, TWO_MIB)))
    ensures SmallPages(y, PageFloor(y.maxVaddr), PageCeil(TWO_MIB))
  {
    hide PageFloor, PageCeil, LeafLevel, TargetPage, Offset;
    KernelRanges(y);
  }

  /** The two kernel ranges meet at 2 MiB and together make up the image. */
  lemma KernelRanges(y: Layout)
    requires LayoutOk(y)
    ensures PageCeil(y.maxVaddr) == y.maxVaddr && PageFloor(TWO_MIB) == TWO_MIB == PageCeil(TWO_MIB)
    ensures PageFloor(y.minVaddr) <= y.minVaddr <= PageCeil(y.minVaddr) <= y.maxVaddr
    ensures PageFloor(y.minVaddr) < TWO_MIB <==> y.minVaddr < TWO_MIB
    ensures PageCeil(y.minVaddr) <= TWO_MIB <==> y.minVaddr <= TWO_MIB
    ensures PageFloor(PAGE) == PAGE && PageFloor(y.maxVaddr) == y.maxVaddr && PageCeil(0) == 0
  {
  }

  method LowPhase(t: Tables, y: Layout) returns (r: Result<()>)
    requires t.Valid() && LayoutOk(y) && LowTables(t.dir) && Lean(y, t.dir)
    requires forall v :: 0 <= v < VA_LIMIT ==> t.View(v) == KernelView(y, v)
    modifies t`mem, t`pool, t`dir
    ensures t.Valid() && LowTables(t.dir) && Lean(y, t.dir)
    ensures r.Ok? ==> forall v :: 0 <= v < VA_LIMIT ==> t.View(v) == LowView(y, v)
    ensures r.Err? ==> OutOfPages(t, y)
  {
    hide Walk, Tree, PoolOk, Budget, OnPath, LowTables, PageFloor, PageCeil, TargetPage, Offset;
    hide Lean, Missing, SmallPages, Needed, BootView;
    KernelRanges(y);
    LowSmall(y);
    var below := Min(y.minVaddr, TWO_MIB);
    if 0 < below {
      ghost var dir0 := t.dir;
      var one := t.Map4kIdent(0x1000, below);
      OnPathLow(dir0, t.dir, PageFloor(PAGE), PageCeil(below));
      RangeLean(y, dir0, t.dir, PageFloor(PAGE), PageCeil(below));
      if one.Err? {
        return Err;
      }
    }
    if y.maxVaddr < TWO_MIB {
      ghost var dir0 := t.dir;
      var one := t.Map4kIdent(y.maxVaddr, TWO_MIB);
      OnPathLow(dir0, t.dir, PageFloor(y.maxVaddr), PageCeil(TWO_MIB));
      RangeLean(y, dir0, t.dir, PageFloor(y.maxVaddr), PageCeil(TWO_MIB));
      if one.Err? {
        return Err;
      }
    }
    r := Ok(());
  }

  /** Addresses of one page lie in the kernel image together. */
  lemma PageInKernel(y: Layout, va: nat, v: nat)
    requires LayoutOk(y) && va % PAGE == 0 && va <= v < va + PAGE
    ensures InKernel(y, v) <==> InKernel(y, va)
    ensures InKernel(y, va) <==> !(va + 0x1000 <= y.minVaddr || va >= y.maxVaddr)
  {
  }

  /** One round of the identity loop. */
  lemma IdentRound(y: Layout, va: nat)
    requires LayoutOk(y) && va % PAGE == 0 && TWO_MIB <= va < y.identEnd
    ensures va + PAGE <= y.identEnd && Low48(va, va) && va < PHYS_LIMIT
    ensures InKernel(y, va) <==> !(va + 0x1000 <= y.minVaddr || va >= y.maxVaddr)
    ensures !InKernel(y, va) ==> IdentView(y, va, va) == Unmapped
    ensures forall v :: 0 <= v < VA_LIMIT ==>
              IdentView(y, va + PAGE, v) ==
              if Slot(0, v) == Slot(0, va) && !InKernel(y, va) then Mapped(PageFloor(va) + Offset(0, v), 0)
              else IdentView(y, va, v)
  {
    hide InKernel, PageFloor, Offset, Slot, LowView;
    IdentPage(y, va, va);
    forall v | 0 <= v < VA_LIMIT
      ensures IdentView(y, va + PAGE, v) ==
              if Slot(0, v) == Slot(0, va) && !InKernel(y, va) then Mapped(PageFloor(va) + Offset(0, v), 0)
              else IdentView(y, va, v)
    {
      IdentPage(y, va, v);
    }
  }

  lemma IdentPage(y: Layout, va: nat, v: nat)
    requires LayoutOk(y) && va % PAGE == 0 && TWO_MIB <= va < y.identEnd
    ensures va + PAGE <= y.identEnd && Low48(va, va)
    ensures Slot(0, v) == Slot(0, va) <==> va <= v < va + PAGE
    ensures va <= v < va + PAGE ==> PageFloor(va) + Offset(0, v) == v && (InKernel(y, v) <==> InKernel(y, va))
    ensures InKernel(y, va) <==> !(va + 0x1000 <= y.minVaddr || va >= y.maxVaddr)
    ensures !InKernel(y, va) ==> LowView(y, va) == Unmapped
  {
    PageInKernel(y, va, va);
    if va <= v < va + PAGE {
      PageInKernel(y, va, v);
    }
  }

  lemma PathLow(dir: map<Node, nat>, va: nat)
    requires LowTables(dir) && va < HHDM48
    ensures forall dir': map<Node, nat> :: dir'.Keys <= dir.Keys + Path(va) ==> LowTables(dir')
  {
  }

  lemma IdentSmall(y: Layout, va: nat)
    requires LayoutOk(y) && TWO_MIB <= va < y.identEnd && !InKernel(y, va)
    ensures va < HHDM48 && BootView(y, va) == Mapped(va, 0)
  {
  }

  method IdentPhase(t: Tables, y: Layout) returns (r: Result<()>)
    requires t.Valid() && LayoutOk(y) && LowTables(t.dir) && Lean(y, t.dir)
    requires forall v :: 0 <= v < VA_LIMIT ==> t.View(v) == LowView(y, v)
    modifies t`mem, t`pool, t`dir
    ensures t.Valid() && LowTables(t.dir) && Lean(y, t.dir)
    ensures r.Ok? ==> forall v :: 0 <= v < VA_LIMIT ==> t.View(v) == IdentView(y, y.identEnd, v)
    ensures r.Err? ==> OutOfPages(t, y)
  {
    hide Lean, Needed, BootView, NodeOf;
    hide Walk, Tree, PoolOk, Budget, OnPath, Path, LowTables, PageFloor, TargetPage, Offset, LowView, Slot, Low48;
    var va := Max(TWO_MIB, 0);
    while va < y.identEnd
      invariant t.Valid() && LowTables(t.dir) && Lean(y, t.dir) && va % PAGE == 0 && TWO_MIB <= va
      invariant forall v :: 0 <= v < VA_LIMIT ==> t.View(v) == IdentView(y, Min(va, y.identEnd), v)
    {
      var overlapKernel := !(va + 0x1000 <= y.minVaddr || va >= y.maxVaddr);
      IdentRound(y, va);
      if !overlapKernel {
        PathLow(t.dir, va);
        IdentSmall(y, va);
        ghost var dir0 := t.dir;
        var one := t.Map4kibPage(va, va, va);
        PathLean(y, dir0, t.dir, va);
        if one.Err? {
          return Err;
        }
      }
      va := va + 0x1000;
    }
    r := Ok(());
  }

  /** `build_pagetables_exec`: `answers` are the pages the firmware hands out, the first one becoming the PML4.
      The call succeeds if and only if they are enough for the tables that the finished address space needs, and then
      builds exactly these. */
  method BuildPagetablesExec(answers: seq<nat>, loadBase: nat, minVaddr: nat, maxVaddr: nat,
                             identBytes: nat, physMax: nat, ghost y: Layout) returns (r: Result<nat>, t: Tables?)
    requires PoolOk(map[], answers)
    requires y == Layout(loadBase, minVaddr, maxVaddr, PageCeil(identBytes), PageCeil(physMax)) && LayoutOk(y)
    ensures r.Ok? <==> |answers| >= |TablesFor(y)|
    ensures answers != [] ==> t != null && fresh(t) && t.Valid() && t.root == answers[0] && t.budget == |answers|
    ensures r.Err? ==> answers == [] || (t != null && OutOfPages(t, y))
    ensures r.Ok? ==> answers != [] && t != null && t.root == r.value && t.dir.Keys == TablesFor(y)
    ensures r.Ok? ==> t != null && forall v :: 0 <= v < VA_LIMIT ==> t.View(v) == BootView(y, v)
    ensures t != null ==> forall v :: 0 <= v < VA_LIMIT && t.View(v).Mapped? ==> t.Access(v) == KERNEL
  {
    hide Walk, Tree, PoolOk, Budget, LowTables, HhdmFree, PageCeil, AlignUp, HhdmTables, LeafLevel, IdentView, LowView, KernelView;
    hide Lean, Needed, TablesFor, Short, RightsFrom;
    if answers == [] {
      RootNeeded(y);
      return Err, null;
    }
    RoundedAreAligned(0, identBytes);
    RoundedAreAligned(0, physMax);
    PageRounding(identBytes);
    PageRounding(physMax);
    PoolTail(answers);
    var layout := Layout(loadBase, minVaddr, maxVaddr, AlignUp(identBytes, 0x1000), AlignUp(physMax, 0x1000));
    t := new Tables(answers[0], answers[1..]);
    RootOnly(t.root, y);
    r := BuildPhases(t, layout);
    t.AccessOfMapped();
    if r.Err? {
      OutOfPagesMeansTooFew(t.dir, y);
      BudgetSpent(t.dir, t.pool, t.budget);
    } else {
      FinishedTables(t.mem, t.root, t.dir, y);
      BudgetSpent(t.dir, t.pool, t.budget);
    }
  }

  /** The phases, on the fresh PML4. */
  method BuildPhases(t: Tables, y: Layout) returns (r: Result<nat>)
    requires t.Valid() && LayoutOk(y) && LowTables(t.dir) && Lean(y, t.dir)
    requires forall v :: 0 <= v < VA_LIMIT ==> t.View(v) == Unmapped
    modifies t`mem, t`pool, t`dir
    ensures t.Valid() && Lean(y, t.dir)
    ensures r.Ok? ==> r.value == t.root && forall v :: 0 <= v < VA_LIMIT ==> t.View(v) == BootView(y, v)
    ensures r.Err? ==> OutOfPages(t, y)
  {
    hide Walk, Tree, PoolOk, Budget, LowTables, HhdmFree, HhdmTables, LeafLevel, IdentView, LowView, KernelView;
    hide Lean, Needed, Short;
    r := Err;
    var kernel := KernelPhase(t, y);
    if kernel.Err? {
      return;
    }
    var low := LowPhase(t, y);
    if low.Err? {
      return;
    }
    var ident := IdentPhase(t, y);
    if ident.Err? {
      return;
    }
    LowTablesFree(t.dir, y.memEnd);
    ghost var dir0 := t.dir;
    var hhdm := MapHhdmHuge(t, y.memEnd);
    ShortTables(t.dir, dir0, y.memEnd);
    HhdmLean(y, dir0, t.dir);
    if hhdm.Err? {
      return;
    }
    r := Ok(t.root);
  }

  lemma ShortTables(dir: map<Node, nat>, dir0: map<Node, nat>, physMax: nat)
    ensures Short(dir, dir0, physMax) ==> dir.Keys <= dir0.Keys + HhdmTables(physMax, physMax)
  {
  }

  lemma RootNeeded(y: Layout)
    ensures |TablesFor(y)| > 0
  {
    TablesForAll(y);
    assert ROOT in TablesFor(y);
  }

  lemma BudgetSpent(dir: map<Node, nat>, pool: seq<nat>, budget: nat)
    requires Budget(dir, pool, budget)
    ensures |dir| == |dir.Keys| <= budget && (pool == [] ==> |dir| == budget)
  {
  }

  lemma PoolTail(answers: seq<nat>)
    requires answers != [] && PoolOk(map[], answers)
    ensures PoolOk(map[], answers[1..]) && answers[0] !in answers[1..]
    ensures answers[0] % PAGE == 0 && answers[0] < PHYS_LIMIT
  {
  }

  lemma RootOnly(root: nat, y: Layout)
    ensures LowTables(map[ROOT := root]) && Lean(y, map[ROOT := root])
  {
  }

  /* ------------------------------ What the address space is ------------------------------ */

  /** The address space the loader means to build: the image at a constant offset, identity around it (page 0 left
      out), the direct map, and nothing else. */
  function IntendedView(y: Layout, v: nat): Translation {
    if y.minVaddr <= v < y.maxVaddr then Mapped(v - y.minVaddr + y.loadBase, 0)
    else if 0x1000 <= v < Max(0x20_0000, y.identEnd) then Mapped(v, 0)
    else if HHDM48 <= v < HHDM48 + y.memEnd then Mapped(v - HHDM48, LeafLevel(v - HHDM48, y.memEnd))
    else Unmapped
  }

  /** The image lies at a page boundary inside physical memory. */
  predicate ImageOk(y: Layout) {
    y.loadBase % PAGE == 0 && y.minVaddr < y.maxVaddr && y.loadBase + (y.maxVaddr - y.minVaddr) <= PHYS_LIMIT
  }

  lemma AlignedKernelPage(y: Layout, v: nat)
    requires ImageOk(y) && y.minVaddr % PAGE == 0 && y.minVaddr <= v < y.maxVaddr
    ensures KernelPage(y, v) == Mapped(v - y.minVaddr + y.loadBase, 0)
  {
    hide PageFloor, Offset, TargetPage;
    PageSplit(v);
    PageSplit(y.minVaddr);
    PageMultiples(PageFloor(v), y.minVaddr, y.loadBase);
    FloorAbove(y.minVaddr, v);
    WholeTarget(PageFloor(v), Delta(y));
  }

  lemma PageSplit(v: nat)
    ensures PageFloor(v) + Offset(0, v) == v && PageFloor(v) % PAGE == 0
  {
  }

  lemma FloorAbove(x: nat, v: nat)
    requires x % PAGE == 0 && x <= v
    ensures x <= PageFloor(v)
  {
  }

  lemma PageMultiples(a: nat, b: nat, c: nat)
    requires a % PAGE == 0 && b % PAGE == 0 && c % PAGE == 0
    ensures (a + (c - b)) % PAGE == 0
  {
  }

  lemma WholeTarget(va: nat, delta: int)
    requires 0 <= va + delta < PHYS_LIMIT && (va + delta) % PAGE == 0
    ensures TargetPage(va, delta) == va + delta
  {
  }

  /** For a page-aligned image the finished address space is the intended one, address by address. */
  lemma AlignedImageAsIntended(y: Layout, v: nat)
    requires LayoutOk(y) && ImageOk(y) && y.minVaddr % PAGE == 0 && v < VA_LIMIT
    ensures BootView(y, v) == IntendedView(y, v)
  {
    hide LeafLevel, TargetPage, Offset, KernelPage;
    if y.minVaddr <= v < y.maxVaddr {
      AlignedKernelPage(y, v);
    }
  }

  /** Without alignment the first byte of the image is reached at the wrong physical address. */
  lemma UnalignedImageMisplaced(y: Layout)
    requires LayoutOk(y) && ImageOk(y) && y.minVaddr % PAGE != 0
    ensures BootView(y, y.minVaddr) != Mapped(y.loadBase, 0)
  {
    hide LeafLevel;
    var o := y.minVaddr % PAGE;
    assert PageFloor(y.minVaddr) + Delta(y) == y.loadBase - o;
    assert (y.loadBase - o) % PAGE == PAGE - o;
  }

  /** The whole image is reached at its load address if and only if it starts on a page boundary. */
  lemma ImageMappedIffAligned(y: Layout)
    requires LayoutOk(y) && ImageOk(y)
    ensures (forall v :: y.minVaddr <= v < y.maxVaddr ==> BootView(y, v) == Mapped(v - y.minVaddr + y.loadBase, 0))
            <==> y.minVaddr % PAGE == 0
  {
    hide BootView;
    if y.minVaddr % PAGE == 0 {
      forall v | y.minVaddr <= v < y.maxVaddr
        ensures BootView(y, v) == Mapped(v - y.minVaddr + y.loadBase, 0)
      {
        AlignedImageAsIntended(y, v);
      }
    } else {
      UnalignedImageMisplaced(y);
    }
  }

  /** The address space in terms of the 64-bit addresses that programs use. */
  function IntendedTranslation(y: Layout, va: nat): Translation {
    if y.minVaddr <= va < y.maxVaddr then Mapped(va - y.minVaddr + y.loadBase, 0)
    else if 0x1000 <= va < Max(0x20_0000, y.identEnd) then Mapped(va, 0)
    else if 0xffff_8880_0000_0000 <= va < 0xffff_8880_0000_0000 + y.memEnd then
      Mapped(va - 0xffff_8880_0000_0000, LeafLevel(va - 0xffff_8880_0000_0000, y.memEnd))
    else Unmapped
  }

  /** Hardware translation of every 64-bit address through the finished tables. */
  lemma TranslateAsIntended(mem: Memory, root: nat, y: Layout, va: nat)
    requires LayoutOk(y) && ImageOk(y) && y.minVaddr % PAGE == 0
    requires y.maxVaddr <= VA_LIMIT / 2 && y.identEnd <= VA_LIMIT / 2
    requires forall v :: 0 <= v < VA_LIMIT ==> Walk(mem, root, v) == BootView(y, v)
    requires va < WORD
    ensures Translate(mem, root, va) == IntendedTranslation(y, va)
  {
    hide Walk, BootView, LeafLevel;
    if va < VA_LIMIT / 2 {
      AlignedImageAsIntended(y, va);
    } else if va >= WORD - VA_LIMIT / 2 {
      var v := va - (WORD - VA_LIMIT);
      assert va % VA_LIMIT == v;
      AlignedImageAsIntended(y, v);
    }
  }
}

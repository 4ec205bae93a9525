/** The loader's page-table writers, over table memory that they change in place. */
module PageTables {

  import opened Wrappers
  import opened Bits
  import opened PageWalk

  const PAGE: nat := 0x1000

  /* ------------------------------ Index and address arithmetic ------------------------------ */

  function Pml4Index(va: nat): nat { And(va / 0x80_0000_0000, 0x1ff) }
  function PdptIndex(va: nat): nat { And(va / 0x4000_0000, 0x1ff) }
  function PdIndex(va: nat): nat { And(va / 0x20_0000, 0x1ff) }
  function PtIndex(va: nat): nat { And(va / 0x1000, 0x1ff) }

  /** v is the part of a 64-bit address that takes part in the walk. */
  predicate Low48(va: nat, v: nat) { v == va % VA_LIMIT }

  /** The four index functions split the low 48 bits of the address the way the walk does. */
  lemma Indices(va: nat, v: nat)
    requires Low48(va, v)
    ensures v < VA_LIMIT
    ensures Pml4Index(va) == Index(3, v) && PdptIndex(va) == Index(2, v)
    ensures PdIndex(va) == Index(1, v) && PtIndex(va) == Index(0, v)
  {
    hide And;
    LowNine(va / 0x80_0000_0000);
    LowNine(va / 0x4000_0000);
    LowNine(va / 0x20_0000);
    LowNine(va / 0x1000);
    DropHighBits(va, 0x80_0000_0000, 1);
    DropHighBits(va, 0x4000_0000, 0x200);
    DropHighBits(va, 0x20_0000, 0x4_0000);
    DropHighBits(va, 0x1000, 0x800_0000);
  }

  lemma LowNine(x: nat)
    ensures And(x, 0x1ff) == x % 512
  {
    Pow2Values();
    hide And;
    AndField(x, 0, 9);
  }

  lemma DropHighBits(x: nat, s: nat, k: nat)
    requires s > 0 && k > 0 && VA_LIMIT == s * (512 * k)
    ensures x / s % 512 == x % VA_LIMIT / s % 512
  {
    var r := x % VA_LIMIT;
    DivOfSum(x, s, 512 * k, x / VA_LIMIT, r);
    assert 512 * k * (x / VA_LIMIT) == 512 * (k * (x / VA_LIMIT));
    ModPlusMultiple(r / s, k * (x / VA_LIMIT), 512);
  }

  lemma DivOfSum(x: nat, s: nat, m: nat, q: nat, r: nat)
    requires s > 0 && x == s * m * q + r
    ensures x / s == m * q + r / s
  {
    assert s * m * q == s * (m * q);
    assert s * (m * q + r / s) == s * (m * q) + s * (r / s);
    DivModUnique(x, s, m * q + r / s, r % s);
  }

  lemma ModPlusMultiple(r: nat, q: nat, d: nat)
    requires d > 0
    ensures (d * q + r) % d == r % d
  {
    assert d * q + r == d * (q + r / d) + r % d;
    DivModUnique(d * q + r, d, q + r / d, r % d);
  }

  /** Page frame that `((va + delta) as u64) & ADDR_MASK` selects: bits 51..12 of the wrapped sum. */
  function TargetPage(va: nat, delta: int): nat {
    (va + delta) % PHYS_LIMIT - (va + delta) % PAGE
  }

  lemma TargetPageBits(va: nat, delta: int)
    ensures And((va + delta) % WORD, ADDR_MASK) == TargetPage(va, delta)
    ensures TargetPage(va, delta) % PAGE == 0 && TargetPage(va, delta) < PHYS_LIMIT
  {
    hide And;
    AddrField((va + delta) % WORD);
    WrapFields(va + delta);
  }

  lemma WrapFields(y: int)
    ensures Addr(y % WORD) == y % PHYS_LIMIT - y % PAGE
    ensures y % PAGE <= y % PHYS_LIMIT && (y % PHYS_LIMIT - y % PAGE) % PAGE == 0
  {
    ModOfMod(y, PHYS_LIMIT, 0x1000);
    ModOfMod(y, PAGE, 0x10_0000_0000_0000);
    ModOfMod(y, PAGE, 0x100_0000_0000);
  }

  lemma ModOfMod(y: int, a: nat, k: nat)
    requires a > 0 && k > 0
    ensures a * k > 0 && y % (a * k) % a == y % a
  {
    var q, r := y / (a * k), y % (a * k);
    assert y == a * k * q + r && a * k * q == a * (k * q);
    assert y == a * (k * q + r / a) + r % a by {
      assert a * (k * q + r / a) == a * (k * q) + a * (r / a);
    }
    ModUnique(y, a, k * q + r / a, r % a);
  }

  lemma ModUnique(y: int, d: nat, q: int, r: nat)
    requires y == d * q + r && r < d
    ensures y % d == r
  {
    if y / d > q {
      MulGap(d, q, y / d);
    } else if y / d < q {
      MulGap(d, y / d, q);
    }
  }

  lemma MulGap(d: nat, a: int, b: int)
    requires a < b
    ensures d * a + d <= d * b
  {
    MulAtLeast(d, 1, b - a);
    assert d * (b - a) == d * b - d * a;
  }

  /** First address of the page of x. */
  function PageFloor(x: nat): nat { x / PAGE * PAGE }

  /** First page boundary at or above x. */
  function PageCeil(x: nat): nat { (x + 0xFFF) / PAGE * PAGE }

  lemma PageRounding(x: nat)
    requires x < WORD
    ensures AlignDown(x, PAGE) == PageFloor(x)
    ensures x + 0xFFF < WORD ==> AlignUp(x, PAGE) == PageCeil(x)
  {
    Pow2Values();
    hide And;
    AlignDownIsFloor(x, 12);
    if x + 0xFFF < WORD {
      AlignUpIsCeil(x, 12);
    }
  }

  /* ------------------------------ Tables under construction ------------------------------ */

  /** n is a table that a page of [lo, hi) needs. */
  ghost predicate OnPath(n: Node, lo: nat, hi: nat) {
    n.level <= 2 && exists v :: lo <= v < hi && n == NodeOf(n.level, v)
  }

  /** Some page of [lo, hi) has no page table. */
  ghost predicate Missing(dir: map<Node, nat>, lo: nat, hi: nat) {
    exists v :: lo <= v < hi && NodeOf(0, v) !in dir
  }

  ghost function Path(v: nat): set<Node> {
    {NodeOf(2, v), NodeOf(1, v), NodeOf(0, v)}
  }

  /** The firmware's answers to the page requests to come: fresh page-aligned addresses; once they run out,
      a request fails. */
  ghost predicate PoolOk(mem: Memory, pool: seq<nat>) {
    && (forall i :: 0 <= i < |pool| ==> pool[i] % PAGE == 0 && pool[i] < PHYS_LIMIT && pool[i] !in mem)
    && (forall i, j :: 0 <= i < j < |pool| ==> pool[i] != pool[j])
  }

  /** Every page handed out became one table of the tree. */
  ghost predicate Budget(dir: map<Node, nat>, pool: seq<nat>, budget: nat) {
    |dir| + |pool| == budget
  }

  class Tables {
    var mem: Memory
    var pool: seq<nat>
    const root: nat
    ghost var dir: map<Node, nat>
    ghost const budget: nat

    ghost predicate Valid()
      reads this
    {
      Tree(mem, root, dir) && PoolOk(mem, pool) && Budget(dir, pool, budget)
    }

    /** How the hardware translates the 48-bit address v with these tables. */
    ghost function View(v: nat): Translation
      reads this
    {
      Walk(mem, root, v)
    }

    /** What the processor lets address v be used for. */
    ghost function Access(v: nat): Rights
      reads this
    {
      RightsFrom(mem, root, 3, v)
    }

    lemma AccessOfMapped()
      requires Valid()
      ensures forall v :: 0 <= v < VA_LIMIT && View(v).Mapped? ==> Access(v) == KERNEL
    {
      forall v | 0 <= v < VA_LIMIT && View(v).Mapped?
        ensures Access(v) == KERNEL
      {
        RootOf(v);
        TreeRights(mem, root, dir, 3, v);
      }
    }

    /** A PML4 page, zeroed, and nothing below it. */
    constructor (root: nat, pool: seq<nat>)
      requires root % PAGE == 0 && root < PHYS_LIMIT && root !in pool && PoolOk(map[], pool)
      ensures Valid() && this.root == root && this.pool == pool && budget == |pool| + 1
      ensures dir == map[ROOT := root]
      ensures forall v :: 0 <= v < VA_LIMIT ==> View(v) == Unmapped
    {
      this.root := root;
      this.mem := map[root := ZeroTable()];
      this.pool := pool;
      this.dir := map[ROOT := root];
      this.budget := |pool| + 1;
      new;
      EmptyTree(root);
    }

    method AllocZeroPage() returns (r: Option<nat>)
      requires PoolOk(mem, pool)
      modifies this`mem, this`pool
      ensures old(pool) == [] ==> r == None && mem == old(mem) && pool == []
      ensures old(pool) != [] ==> r == Some(old(pool)[0]) && pool == old(pool)[1..]
                                  && mem == old(mem)[old(pool)[0] := ZeroTable()]
      ensures PoolOk(mem, pool)
      ensures r.Some? ==> r.value !in old(mem) && r.value % PAGE == 0 && r.value < PHYS_LIMIT
    {
      if pool == [] {
        r := None;
      } else {
        var p := pool[0];
        pool := pool[1..];
        mem := mem[p := ZeroTable()];
        r := Some(p);
      }
    }

    method EnsurePdpt(pml4: nat, pml4i: nat) returns (r: Result<nat>)
      requires Valid() && pml4 == root && pml4i < 512
      modifies this`mem, this`pool, this`dir
      ensures Valid() && forall v :: 0 <= v < VA_LIMIT ==> View(v) == old(View(v))
      ensures r.Ok? ==> dir.Keys == old(dir.Keys) + {Child(ROOT, pml4i)} && dir[Child(ROOT, pml4i)] == r.value
      ensures r.Err? ==> dir == old(dir) && pool == [] && Child(ROOT, pml4i) !in dir
      ensures forall n :: n in old(dir) ==> n in dir && dir[n] == old(dir[n])
    {
      hide Present, Ps, Addr, LeafOf, Slot, Index, Span, Parent, And, Or;
      var e := mem[pml4][pml4i];
      EntryFields(e);
      assert SlotLinked(mem, dir, ROOT, pml4i);
      if And(e, PTE_P) == 0 {
        r := NewTable(pml4, pml4i, ROOT);
      } else {
        LeafOfPml4(e);
        r := Ok(And(e, ADDR_MASK));
      }
    }

    method EnsurePd(pdpt: nat, pdpti: nat, ghost n: Node) returns (r: Result<nat>)
      requires Valid() && n in dir && n.level == 2 && dir[n] == pdpt && pdpti < 512
      modifies this`mem, this`pool, this`dir
      ensures Valid() && forall v :: 0 <= v < VA_LIMIT ==> View(v) == old(View(v))
      ensures r.Ok? ==> dir.Keys == old(dir.Keys) + {Child(n, pdpti)} && dir[Child(n, pdpti)] == r.value
      ensures r.Err? ==> dir == old(dir) && mem == old(mem) && Child(n, pdpti) !in dir
      ensures r.Err? ==> pool == [] || (Present(mem[pdpt][pdpti]) && !IsTable(mem[pdpt][pdpti], 2))
      ensures forall m :: m in old(dir) ==> m in dir && dir[m] == old(dir[m])
    {
      hide Present, Ps, Addr, LeafOf, Slot, Index, Span, Parent, And, Or;
      var e := mem[pdpt][pdpti];
      EntryFields(e);
      assert SlotLinked(mem, dir, n, pdpti);
      if And(e, PTE_P) == 0 {
        r := NewTable(pdpt, pdpti, n);
      } else if And(e, PTE_PS) != 0 {
        r := Err;
      } else {
        r := Ok(And(e, ADDR_MASK));
      }
    }

    method EnsurePt(pd: nat, pdi: nat, ghost n: Node) returns (r: Result<nat>)
      requires Valid() && n in dir && n.level == 1 && dir[n] == pd && pdi < 512
      modifies this`mem, this`pool, this`dir
      ensures Valid() && forall v :: 0 <= v < VA_LIMIT ==> View(v) == old(View(v))
      ensures r.Ok? ==> dir.Keys == old(dir.Keys) + {Child(n, pdi)} && dir[Child(n, pdi)] == r.value
      ensures r.Err? ==> dir == old(dir) && mem == old(mem) && Child(n, pdi) !in dir
      ensures r.Err? ==> pool == [] || (Present(mem[pd][pdi]) && !IsTable(mem[pd][pdi], 1))
      ensures forall m :: m in old(dir) ==> m in dir && dir[m] == old(dir[m])
    {
      hide Present, Ps, Addr, LeafOf, Slot, Index, Span, Parent, And, Or;
      var e := mem[pd][pdi];
      EntryFields(e);
      assert SlotLinked(mem, dir, n, pdi);
      if And(e, PTE_P) == 0 {
        r := NewTable(pd, pdi, n);
      } else if And(e, PTE_PS) != 0 {
        r := Err;
      } else {
        r := Ok(And(e, ADDR_MASK));
      }
    }

    /** The first two calls of the chain that the writers start with: the page directory of va, built if it is
        missing. */
    method EnsureDirectory(va: nat, ghost v: nat) returns (r: Result<nat>)
      requires Valid() && Low48(va, v)
      modifies this`mem, this`pool, this`dir
      ensures v < VA_LIMIT && Valid() && forall w :: 0 <= w < VA_LIMIT ==> View(w) == old(View(w))
      ensures r.Ok? ==> NodeOf(1, v) in dir && dir[NodeOf(1, v)] == r.value
      ensures r.Ok? ==> dir.Keys == old(dir.Keys) + {NodeOf(2, v), NodeOf(1, v)}
      ensures r.Err? ==> pool == [] || (old(View(v)).Large() && old(View(v)).level == 2)
      ensures r.Err? ==> NodeOf(1, v) !in dir
      ensures old(dir.Keys) <= dir.Keys <= old(dir.Keys) + {NodeOf(2, v), NodeOf(1, v)}
    {
      hide Present, IsTable, Addr, LeafOf, Slot, Index, Span, Child, Parent, NodeOf, And, Or, Walk, PoolOk, Budget, Tree;
      hide Pml4Index, PdptIndex, PdIndex, PtIndex, Low48;
      Indices(va, v);
      RootOf(v);
      NodeOfChild(3, v);
      NodeOfChild(2, v);
      var pdpt := EnsurePdpt(root, Pml4Index(va));
      if pdpt.Err? {
        NoneBelow(mem, root, dir, 2, v);
        return Err;
      }
      r := EnsurePd(pdpt.value, PdptIndex(va), NodeOf(2, v));
      if r.Err? {
        SlotDecides(mem, root, dir, 2, v);
      }
    }

    /** The whole chain: the page table of va, built if it is missing. */
    method EnsurePath(va: nat, ghost v: nat) returns (r: Result<nat>)
      requires Valid() && Low48(va, v)
      modifies this`mem, this`pool, this`dir
      ensures v < VA_LIMIT && Valid() && forall w :: 0 <= w < VA_LIMIT ==> View(w) == old(View(w))
      ensures r.Ok? ==> dir.Keys == old(dir.Keys) + Path(v) && NodeOf(0, v) in dir && dir[NodeOf(0, v)] == r.value
      ensures r.Ok? ==> !old(View(v)).Large()
      ensures r.Err? ==> (pool == [] || old(View(v)).Large()) && NodeOf(0, v) !in dir
      ensures old(dir.Keys) <= dir.Keys <= old(dir.Keys) + Path(v)
    {
      hide Present, IsTable, Addr, LeafOf, Slot, Index, Span, Child, Parent, NodeOf, And, Or, Walk, PoolOk, Budget, Tree;
      hide Pml4Index, PdptIndex, PdIndex, PtIndex, Low48;
      Indices(va, v);
      NodeOfChild(1, v);
      var pd := EnsureDirectory(va, v);
      if pd.Err? {
        NoneBelow(mem, root, dir, 1, v);
        return Err;
      }
      r := EnsurePt(pd.value, PdIndex(va), NodeOf(1, v));
      if r.Err? {
        SlotDecides(mem, root, dir, 1, v);
      } else {
        SlotDecides(mem, root, dir, 0, v);
      }
    }

    /** One round of the loop in `map_4k_offset`: the page of va, mapped whatever its entry held. */
    method MapOver(va: nat, delta: int) returns (r: Result<()>)
      requires Valid() && va < VA_LIMIT
      modifies this`mem, this`pool, this`dir
      ensures Valid()
      ensures r.Ok? ==> !old(View(va)).Large() && dir.Keys == old(dir.Keys) + Path(va)
      ensures r.Ok? ==>
                forall v :: 0 <= v < VA_LIMIT ==>
                  View(v) == if Slot(0, v) == Slot(0, va) then Mapped(TargetPage(va, delta) + Offset(0, v), 0)
                             else old(View(v))
      ensures r.Err? ==> (pool == [] || old(View(va)).Large()) && old(dir.Keys) <= dir.Keys <= old(dir.Keys) + Path(va)
      ensures r.Err? ==> NodeOf(0, va) !in dir
      ensures r.Err? ==> forall v :: 0 <= v < VA_LIMIT ==> View(v) == old(View(v))
    {
      hide Present, Ps, Addr, LeafOf, Slot, Index, Parent, And, Or, Walk, Tree;
      hide PtIndex, TargetPage, Path;
      var pt := EnsurePath(va, va);
      if pt.Err? {
        return Err;
      }
      var phys := And((va + delta) % WORD, ADDR_MASK);
      TargetPageBits(va, delta);
      EntryPack(phys);
      Indices(va, va);
      TablePages(mem, root, dir, NodeOf(0, va));
      WriteLeaf(pt.value, PtIndex(va), Or(Or(phys, PTE_P), PTE_RW), 0, va, phys);
      r := Ok(());
    }

    /** A store of a leaf for frame p into the slot of va in table `t`, of level l. */
    method WriteLeaf(t: nat, i: nat, e: nat, ghost l: nat, ghost va: nat, ghost p: nat)
      requires Valid() && l <= 2 && va < VA_LIMIT
      requires NodeOf(l, va) in dir && dir[NodeOf(l, va)] == t && i == Index(l, va)
      requires LeafFor(e, l, p) && !IsTable(mem[t][i], l)
      modifies this`mem
      ensures Valid()
      ensures forall v :: 0 <= v < VA_LIMIT ==>
                View(v) == if Slot(l, v) == Slot(l, va) then Mapped(p + Offset(l, v), l) else old(View(v))
    {
      hide Present, Ps, Addr, LeafOf, Slot, Index, Parent, Walk, Span;
      SlotSplit(l, va);
      LeafWrite(mem, root, dir, NodeOf(l, va), i, e, p);
      mem := SetEntry(mem, t, i, e);
    }

    /** Maps the page of va unless its entry is present already. */
    method Map4kibPage(va: nat, phys: nat, ghost w: nat) returns (r: Result<()>)
      requires Valid() && phys < PHYS_LIMIT && Low48(va, w)
      modifies this`mem, this`pool, this`dir
      ensures Valid()
      ensures r.Ok? ==> !old(View(w)).Large() && dir.Keys == old(dir.Keys) + Path(w)
      ensures r.Ok? ==>
                forall v :: 0 <= v < VA_LIMIT ==>
                  View(v) == if Slot(0, v) == Slot(0, w) && old(View(w)) == Unmapped
                             then Mapped(PageFloor(phys) + Offset(0, v), 0)
                             else old(View(v))
      ensures r.Err? ==> (pool == [] || old(View(w)).Large()) && old(dir.Keys) <= dir.Keys <= old(dir.Keys) + Path(w)
      ensures r.Err? ==> NodeOf(0, w) !in dir
      ensures r.Err? ==> forall v :: 0 <= v < VA_LIMIT ==> View(v) == old(View(v))
    {
      hide Present, Ps, Addr, LeafOf, Slot, Index, Parent, And, Or, Walk, Tree;
      hide PtIndex, Path, PageFloor, Low48;
      var pt := EnsurePath(va, w);
      if pt.Err? {
        return Err;
      }
      Indices(va, w);
      SlotDecides(mem, root, dir, 0, w);
      TablePages(mem, root, dir, NodeOf(0, w));
      var e := mem[pt.value][PtIndex(va)];
      EntryFields(e);
      if And(e, PTE_P) == 0 {
        var p := And(phys, ADDR_MASK);
        MaskPage(phys);
        EntryPack(p);
        WriteLeaf(pt.value, PtIndex(va), Or(Or(p, PTE_P), PTE_RW), 0, w, p);
      }
      r := Ok(());
    }

    method Map4kOffset(startVa: nat, endVa: nat, delta: int) returns (r: Result<()>)
      requires Valid() && startVa < WORD && PageCeil(endVa) <= VA_LIMIT
      modifies this`mem, this`pool, this`dir
      ensures Valid()
      ensures r.Ok? ==>
                forall v :: 0 <= v < VA_LIMIT ==>
                  View(v) == if PageFloor(startVa) <= v < PageCeil(endVa)
                             then Mapped(TargetPage(PageFloor(v), delta) + Offset(0, v), 0)
                             else old(View(v))
      ensures r.Err? ==> pool == [] || exists v :: PageFloor(startVa) <= v < PageCeil(endVa) && old(View(v)).Large()
      ensures r.Err? ==> Missing(dir, PageFloor(startVa), PageCeil(endVa))
      ensures forall v :: 0 <= v < VA_LIMIT && !(PageFloor(startVa) <= v < PageCeil(endVa)) ==> View(v) == old(View(v))
      ensures forall n :: n in old(dir) ==> n in dir
      ensures forall n :: n in dir ==> n in old(dir) || OnPath(n, PageFloor(startVa), PageCeil(endVa))
    {
      hide AlignDown, AlignUp, And, TargetPage, Walk, Tree, PoolOk, Budget, NodeOf, OnPath, Path, Slot, PageFloor, PageCeil;
      RoundedAreAligned(startVa, endVa);
      PageRounding(startVa);
      PageRounding(endVa);
      var va := AlignDown(startVa, PAGE);
      var end := AlignUp(endVa, PAGE);
      while va < end
        invariant Valid() && va % PAGE == 0 && PageFloor(startVa) <= va
        invariant forall v :: 0 <= v < VA_LIMIT ==>
                    View(v) == if PageFloor(startVa) <= v < va && v < end
                               then Mapped(TargetPage(PageFloor(v), delta) + Offset(0, v), 0)
                               else old(View(v))
        invariant forall n :: n in old(dir) ==> n in dir
        invariant forall n :: n in dir ==> n in old(dir) || OnPath(n, PageFloor(startVa), end)
      {
        PathOnPath(va, PageFloor(startVa), end);
        SamePage(va, end);
        var one := MapOver(va, delta);
        if one.Err? {
          return Err;
        }
        va := va + 0x1000;
      }
      r := Ok(());
    }

    method Map4kIdent(startVa: nat, endVa: nat) returns (r: Result<()>)
      requires Valid() && startVa < WORD && PageCeil(endVa) <= VA_LIMIT
      modifies this`mem, this`pool, this`dir
      ensures Valid()
      ensures r.Ok? ==>
                forall v :: 0 <= v < VA_LIMIT ==>
                  View(v) == if PageFloor(startVa) <= v < PageCeil(endVa) then Mapped(v, 0) else old(View(v))
      ensures r.Err? ==> pool == [] || exists v :: PageFloor(startVa) <= v < PageCeil(endVa) && old(View(v)).Large()
      ensures r.Err? ==> Missing(dir, PageFloor(startVa), PageCeil(endVa))
      ensures forall v :: 0 <= v < VA_LIMIT && !(PageFloor(startVa) <= v < PageCeil(endVa)) ==> View(v) == old(View(v))
      ensures forall n :: n in old(dir) ==> n in dir
      ensures forall n :: n in dir ==> n in old(dir) || OnPath(n, PageFloor(startVa), PageCeil(endVa))
    {
      hide Walk, Tree, PoolOk, Budget, OnPath, Missing, PageFloor, PageCeil, TargetPage;
      r := Map4kOffset(startVa, endVa, 0);
      forall v | 0 <= v < VA_LIMIT
        ensures TargetPage(PageFloor(v), 0) + Offset(0, v) == v
      {
        IdentTarget(v);
      }
    }

    /** The allocating branch that the three functions share: page `t` is the table of node n. */
    method NewTable(t: nat, i: nat, ghost n: Node) returns (r: Result<nat>)
      requires Valid() && n in dir && dir[n] == t && n.level > 0 && i < 512 && !Present(mem[t][i])
      modifies this`mem, this`pool, this`dir
      ensures Valid() && forall v :: 0 <= v < VA_LIMIT ==> View(v) == old(View(v))
      ensures r.Ok? ==> dir.Keys == old(dir.Keys) + {Child(n, i)} && dir[Child(n, i)] == r.value
      ensures r.Err? ==> dir == old(dir) && mem == old(mem) && pool == []
      ensures forall m :: m in old(dir) ==> m in dir && dir[m] == old(dir[m])
    {
      hide Present, Ps, Addr, LeafOf, Child, Parent, And, Or, Walk, PoolOk, Tree, SetEntry;
      TablePages(mem, root, dir, n);
      var page := AllocZeroPage();
      if page == None {
        r := Err;
      } else {
        var c := page.value;
        EntryPack(c);
        LinkTable(old(mem), root, dir, n, i, c);
        mem := SetEntry(mem, t, i, Or(Or(c, PTE_P), PTE_RW));
        assert mem == LinkEntry(old(mem), dir, n, i, c);
        dir := dir[Child(n, i) := c];
        SameKeysPool(old(mem)[c := ZeroTable()], mem, pool);
        r := Ok(c);
      }
    }
  }

  lemma PathOnPath(v: nat, lo: nat, hi: nat)
    requires lo <= v < hi
    ensures forall n :: n in Path(v) ==> OnPath(n, lo, hi)
  {
    assert NodeOf(2, v) == NodeOf(NodeOf(2, v).level, v);
    assert NodeOf(1, v) == NodeOf(NodeOf(1, v).level, v);
    assert NodeOf(0, v) == NodeOf(NodeOf(0, v).level, v);
  }

  lemma MaskPage(p: nat)
    requires p < PHYS_LIMIT
    ensures And(p, ADDR_MASK) == PageFloor(p) < PHYS_LIMIT && PageFloor(p) % PAGE == 0
  {
    hide And;
    AddrField(p);
  }

  lemma TablePages(mem: Memory, root: nat, dir: map<Node, nat>, n: Node)
    requires Tree(mem, root, dir) && n in dir
    ensures dir[n] in mem
  {
  }

  lemma RoundedAreAligned(x: nat, y: nat)
    ensures PageFloor(x) % PAGE == 0 && y <= PageCeil(y) && PageCeil(y) % PAGE == 0
  {
  }

  lemma IdentTarget(v: nat)
    requires v < VA_LIMIT
    ensures TargetPage(PageFloor(v), 0) + Offset(0, v) == v
  {
  }

  /** The addresses of one page of an aligned range. */
  lemma SamePage(va: nat, end: nat)
    requires va % PAGE == 0 && end % PAGE == 0 && va < end
    ensures va + PAGE <= end
    ensures forall v: nat :: Slot(0, v) == Slot(0, va) <==> va <= v < va + PAGE
    ensures forall v: nat :: va <= v < va + PAGE ==> PageFloor(v) == va
  {
  }

  lemma SameKeysPool(mem: Memory, mem': Memory, pool: seq<nat>)
    requires PoolOk(mem, pool) && mem.Keys == mem'.Keys
    ensures PoolOk(mem', pool)
  {
  }

  lemma LeafOfPml4(e: nat)
    ensures LeafOf(e, 3, 0) == Unmapped
  {
  }

  lemma EmptyTree(root: nat)
    requires root % PAGE == 0 && root < PHYS_LIMIT
    ensures Tree(map[root := ZeroTable()], root, map[ROOT := root])
    ensures forall v :: 0 <= v < VA_LIMIT ==> Walk(map[root := ZeroTable()], root, v) == Unmapped
  {
    var mem: Memory, dir := map[root := ZeroTable()], map[ROOT := root];
    forall n, i | n in dir && 0 <= i < 512
      ensures SlotLinked(mem, dir, n, i)
    {
      assert mem[dir[n]][i] == 0;
    }
  }
}

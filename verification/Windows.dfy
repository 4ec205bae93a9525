/** The kernel's virtual windows: the heap, the MMIO window and the vmap window, each handed out by moving a cursor,
    over a page mapper that takes its table frames from the frame allocator. */
module Windows {

  import opened Wrappers
  import opened Bits
  import opened PageWalk
  import opened PageTables
  import opened Frames
  import BootMap
  import Hhdm

  const KHEAP_START: nat := 0xffff_c000_0000_0000
  const KHEAP_SIZE: nat := 0x200_0000
  const MMIO_BASE: nat := 0xffff_d000_0000_0000
  const VMAP_BASE: nat := 0xffff_e000_0000_0000

  /** Why `map_to` fails. */
  datatype MapError = NoFrame | AlreadyMapped

  /** How a call ends: normally, with `None`, or in a panic over a failed mapping. */
  datatype Outcome = Done(va: nat) | OutOfFrames | Panic(error: MapError)

  /** Physical address of va, by page. */
  function Lookup(pages: map<nat, nat>, va: nat): Option<nat> {
    if PageFloor(va) in pages then Some(pages[PageFloor(va)] + va % PAGE) else None
  }

  predicate Anonymous(va: nat) { KHEAP_START <= va < MMIO_BASE || VMAP_BASE <= va }

  /** Pages of the heap and vmap windows sit on frames of their own. */
  ghost predicate OwnFrames(pages: map<nat, nat>, handed: set<nat>) {
    && (forall va :: va in pages && Anonymous(va) ==> pages[va] in handed)
    && (forall a, b :: a in pages && b in pages && Anonymous(a) && Anonymous(b) && pages[a] == pages[b] ==> a == b)
  }

  /** Above each cursor its window is unmapped. */
  ghost predicate Unused(pages: map<nat, nat>, heapEnd: nat, nextMmio: nat, nextVmap: nat) {
    && KHEAP_START <= heapEnd <= MMIO_BASE <= nextMmio <= VMAP_BASE <= nextVmap <= WORD
    && IsPage(nextMmio) && IsPage(nextVmap)
    && (forall va :: va in pages && KHEAP_START <= va < MMIO_BASE ==> va < heapEnd)
    && (forall va :: va in pages && MMIO_BASE <= va < VMAP_BASE ==> va < nextMmio)
    && (forall va :: va in pages && VMAP_BASE <= va ==> va < nextVmap)
  }

  /** What a call changes: the frames handed out, the tables, and the pages. */
  datatype Use = Use(handed: set<nat>, tables: set<Node>, pages: map<nat, nat>)

  /** Nothing is unmapped or moved, and what is new lies in [lo, hi) on frames that were not in use before. */
  ghost predicate Grown(was: map<nat, nat>, now: map<nat, nat>, lo: nat, hi: nat, inUse: set<nat>) {
    && (forall a :: a in was ==> a in now && now[a] == was[a])
    && (forall a :: a in now && a !in was ==> lo <= a < hi && now[a] !in inUse)
  }

  /** All pages of [lo, hi) are mapped. */
  ghost predicate Filled(pages: map<nat, nat>, lo: nat, hi: nat) {
    forall p: nat :: IsPage(p) && lo <= p < hi ==> p in pages
  }

  /** now is was with va added. */
  ghost predicate Added(was: map<nat, nat>, now: map<nat, nat>, va: nat) {
    va !in was && now.Keys == was.Keys + {va} && forall a :: a in was ==> now[a] == was[a]
  }

  /** Tables are only added, and only such as serve addresses of [lo, hi). */
  ghost predicate TablesFor(was: set<Node>, now: set<Node>, lo: nat, hi: nat) {
    && was <= now
    && forall n :: n in now && n !in was ==> exists v :: lo <= v < hi && OnWalk(n, v)
  }

  /** Table n is on the walk of the 64-bit address v. */
  predicate OnWalk(n: Node, v: nat) { n.level <= 2 && n == NodeOf(n.level, v % VA_LIMIT) }

  /** As many frames have been handed out as there are new tables and `pages` more. */
  ghost predicate Spent(was: Use, now: Use, pages: int) {
    |now.handed| == |was.handed| + (|now.tables| - |was.tables|) + pages
  }

  /** Every frame handed out since is a new table or a new page, except that a failure may lose one. */
  ghost predicate Cost(was: Use, now: Use, done: bool) {
    || Spent(was, now, |now.pages| - |was.pages|)
    || (!done && Spent(was, now, |now.pages| - |was.pages| + 1))
  }

  /** The pages of [lo, cur) have been mapped, with the tables and frames that this takes. */
  ghost predicate Extended(was: Use, now: Use, lo: nat, cur: nat, hi: nat) {
    && Grown(was.pages, now.pages, lo, hi, was.handed) && Filled(now.pages, lo, cur)
    && was.handed <= now.handed && Cost(was, now, true) && TablesFor(was.tables, now.tables, lo, hi)
  }

  lemma ExtendStart(u: Use, lo: nat, hi: nat)
    ensures Extended(u, u, lo, lo, hi) && Cost(u, u, false)
  {
  }

  /** One more page. */
  lemma ExtendStep(was: Use, mid: Use, now: Use, lo: nat, va: nat, hi: nat)
    requires Extended(was, mid, lo, va, hi) && lo <= va < hi && IsPage(va) && mid.handed <= now.handed
    requires Added(mid.pages, now.pages, va) && va in now.pages && now.pages[va] !in mid.handed
    requires Cost(mid, now, true) && TablesFor(mid.tables, now.tables, va, va + 1)
    ensures Extended(was, now, lo, va + PAGE, hi) && IsPage(va + PAGE)
  {
    hide TablesFor, Grown, Filled, Cost, Added, IsPage;
    TablesAlso(was.tables, mid.tables, now.tables, lo, hi, va, va + 1);
    NewFrame(now.pages, va, was.handed, mid.handed);
    Grow(was.pages, mid.pages, now.pages, lo, hi, was.handed, va);
    Fill(mid.pages, now.pages, lo, va);
    CostAlso(was, mid, now);
  }

  lemma NewFrame(pages: map<nat, nat>, va: nat, was: set<nat>, mid: set<nat>)
    requires va in pages && pages[va] !in mid && was <= mid
    ensures pages[va] !in was
  {
  }

  lemma Fill(mid: map<nat, nat>, now: map<nat, nat>, lo: nat, va: nat)
    requires Filled(mid, lo, va) && IsPage(va) && Added(mid, now, va)
    ensures Filled(now, lo, va + PAGE) && IsPage(va + PAGE)
  {
    PageSteps(va);
  }

  lemma CostAlso(was: Use, mid: Use, now: Use)
    requires Cost(was, mid, true) && Cost(mid, now, true)
    ensures Cost(was, now, true)
  {
  }

  /** A page that was mapped already. */
  lemma ExtendSkip(was: Use, now: Use, lo: nat, va: nat, hi: nat)
    requires Extended(was, now, lo, va, hi) && IsPage(va) && va in now.pages
    ensures Extended(was, now, lo, va + PAGE, hi) && IsPage(va + PAGE)
  {
    hide TablesFor, Cost, Grown;
    PageSteps(va);
  }

  /** A step that failed. */
  lemma ExtendFail(was: Use, mid: Use, now: Use, lo: nat, va: nat, hi: nat)
    requires Extended(was, mid, lo, va, hi) && lo <= va < hi && now.pages == mid.pages
    requires Cost(mid, now, false) && TablesFor(mid.tables, now.tables, va, va + 1)
    ensures Grown(was.pages, now.pages, lo, hi, was.handed) && Cost(was, now, false) && TablesFor(was.tables, now.tables, lo, hi)
  {
    hide TablesFor, Grown, Filled;
    TablesAlso(was.tables, mid.tables, now.tables, lo, hi, va, va + 1);
  }

  /** The end of the loop. */
  lemma ExtendEnd(was: Use, now: Use, lo: nat, cur: nat, hi: nat)
    requires Extended(was, now, lo, cur, hi) && hi <= cur
    ensures Grown(was.pages, now.pages, lo, hi, was.handed) && Filled(now.pages, lo, hi)
    ensures Cost(was, now, true) && TablesFor(was.tables, now.tables, lo, hi)
  {
    hide TablesFor, Grown, Cost;
  }

  lemma TablesAlso(t0: set<Node>, t1: set<Node>, t2: set<Node>, lo: nat, hi: nat, lo1: nat, hi1: nat)
    requires TablesFor(t0, t1, lo, hi) && TablesFor(t1, t2, lo1, hi1) && lo <= lo1 && hi1 <= hi
    ensures TablesFor(t0, t2, lo, hi)
  {
    hide OnWalk;
    forall n | n in t2 && n !in t0
      ensures exists v :: lo <= v < hi && OnWalk(n, v)
    {
      if n in t1 {
        var v :| lo <= v < hi && OnWalk(n, v);
      } else {
        var v :| lo1 <= v < hi1 && OnWalk(n, v);
      }
    }
  }

  lemma NothingSpent(u: Use, lo: nat, hi: nat)
    ensures Spent(u, u, 0) && TablesFor(u.tables, u.tables, lo, hi)
  {
  }

  lemma SpentPages(was: Use, mid: Use, now: Use)
    requires Spent(was, mid, 0) && now == mid.(pages := now.pages)
    ensures Spent(was, now, 0)
  {
  }

  lemma SpentAlso(was: Use, mid: Use, now: Use)
    requires Spent(was, mid, 0) && Spent(mid, now, 0)
    ensures Spent(was, now, 0)
  {
  }

  lemma OneTable(was: Use, now: Use, f: nat, level: nat, va: nat)
    requires Spent(was, now, 0) && TablesFor(was.tables, now.tables, va, va + 1) && level <= 2
    requires f !in now.handed && NodeOf(level, va % VA_LIMIT) !in now.tables
    ensures var more := now.tables + {NodeOf(level, va % VA_LIMIT)};
            Spent(was, Use(now.handed + {f}, more, now.pages), 0) && TablesFor(was.tables, more, va, va + 1)
  {
    hide NodeOf;
    var n := NodeOf(level, va % VA_LIMIT);
    LevelOf(level, va);
    forall m | m in now.tables + {n} && m !in was.tables
      ensures exists v :: va <= v < va + 1 && OnWalk(m, v)
    {
      if m == n {
        assert OnWalk(m, va);
      }
    }
  }

  lemma LevelOf(level: nat, va: nat)
    requires level <= 3
    ensures NodeOf(level, va % VA_LIMIT).level == level
  {
  }

  /** A frame for the page, and then the tables. */
  lemma OnePage(was: Use, mid: Use, now: Use, f: nat, va: nat)
    requires f !in was.handed && mid == was.(handed := was.handed + {f}) && Spent(mid, now, 0) && va !in was.pages
    ensures now.pages == was.pages[va := f] ==> Cost(was, now, true)
    ensures now.pages == was.pages ==> Cost(was, now, false)
  {
    assert |was.pages[va := f]| == |was.pages| + 1;
  }

  lemma OwnFramesGrow(pages: map<nat, nat>, handed: set<nat>, f: nat, handed': set<nat>, va: nat)
    requires f !in handed && handed + {f} <= handed' && va !in pages
    ensures OwnFrames(pages, handed) ==> OwnFrames(pages, handed') && OwnFrames(pages[va := f], handed')
  {
  }

  lemma NotGrown(pages: map<nat, nat>, lo: nat, hi: nat, inUse: set<nat>)
    ensures Grown(pages, pages, lo, hi, inUse)
  {
  }

  lemma Grow(was: map<nat, nat>, mid: map<nat, nat>, now: map<nat, nat>, lo: nat, hi: nat, inUse: set<nat>, va: nat)
    requires Grown(was, mid, lo, hi, inUse) && Added(mid, now, va) && lo <= va < hi && now[va] !in inUse
    ensures Grown(was, now, lo, hi, inUse)
  {
  }

  class KernelMap {
    const frames: FrameSources
    var pages: map<nat, nat>
    var tables: set<Node>
    var nextMmio: nat
    var nextVmap: nat
    ghost var heapEnd: nat
    ghost const repr: set<object>

    ghost function Used(): Use
      reads this, frames
    {
      Use(frames.handed, tables, pages)
    }

    ghost predicate Core()
      reads this, repr
    {
      && repr == {frames, frames.table, frames.early, frames.low32, frames.usable} && this !in repr
      && frames.Valid()
    }

    ghost predicate Valid()
      reads this, repr
    {
      Core() && OwnFrames(pages, frames.handed) && Unused(pages, heapEnd, nextMmio, nextVmap)
    }

    /** The address space that the loader left: nothing mapped in the three windows. */
    constructor (frames: FrameSources, pages: map<nat, nat>, tables: set<Node>)
      requires frames.Valid()
      requires forall va :: va in pages ==> va < KHEAP_START
      ensures Valid() && this.frames == frames && this.pages == pages
      ensures heapEnd == 0xffff_c000_0000_0000 && nextMmio == 0xffff_d000_0000_0000 && nextVmap == 0xffff_e000_0000_0000
    {
      this.frames, this.pages, this.tables := frames, pages, tables;
      this.nextMmio, this.nextVmap, this.heapEnd := MMIO_BASE, VMAP_BASE, KHEAP_START;
      this.repr := {frames, frames.table, frames.early, frames.low32, frames.usable};
    }

    /** `map_to`: fills in missing tables from the frame allocator, one frame for each, then the page, unless it is
        mapped already. */
    method MapTo(va: nat, pa: nat) returns (failed: Option<MapError>)
      requires Core()
      modifies this`pages, this`tables, frames.early, frames.usable, frames`handed
      ensures Core() && old(frames.handed) <= frames.handed
      ensures failed == None ==> va !in old(pages) && pages == old(pages)[va := pa]
      ensures failed.Some? ==> pages == old(pages)
      ensures failed == Some(AlreadyMapped) ==> va in old(pages)
      ensures failed.Some? ==> failed == Some(AlreadyMapped) || (failed == Some(NoFrame) && frames.Exhausted())
      ensures Spent(old(Used()), Used(), 0) && TablesFor(old(tables), tables, va, va + 1)
    {
      hide NodeOf, TablesFor, Spent, FrameSources.Valid;
      NothingSpent(Used(), va, va + 1);
      var level := 3;
      while level > 0
        invariant 0 <= level <= 3 && Core() && old(frames.handed) <= frames.handed && pages == old(pages)
        invariant Spent(old(Used()), Used(), 0) && TablesFor(old(tables), tables, va, va + 1)
      {
        level := level - 1;
        var n := NodeOf(level, va % VA_LIMIT);
        if n !in tables {
          ghost var before := Used();
          var f := frames.AllocateFrame();
          if f == None {
            return Some(NoFrame);
          }
          OneTable(old(Used()), before, f.value, level, va);
          tables := tables + {n};
        }
      }
      if va in pages {
        return Some(AlreadyMapped);
      }
      ghost var before := Used();
      pages := pages[va := pa];
      SpentPages(old(Used()), before, Used());
      failed := None;
    }

    /** A fresh frame for an unmapped page, the step all three loops share: on success the result is Done(va), otherwise
        nothing is mapped, and one frame at most is lost. */
    method MapFresh(va: nat) returns (r: Outcome)
      requires Core() && va !in pages
      modifies this`pages, this`tables, frames.early, frames.usable, frames`handed
      ensures Core() && old(frames.handed) <= frames.handed
      ensures old(OwnFrames(pages, frames.handed)) ==> OwnFrames(pages, frames.handed)
      ensures r.Done? ==> Added(old(pages), pages, va) && va in pages && pages[va] !in old(frames.handed)
      ensures !r.Done? ==> pages == old(pages) && frames.Exhausted()
      ensures r != Panic(AlreadyMapped)
      ensures Cost(old(Used()), Used(), r.Done?) && TablesFor(old(tables), tables, va, va + 1)
    {
      hide FrameSources.Valid, TablesFor, Spent, OwnFrames, Added, Cost;
      ghost var was := Used();
      NothingSpent(was, va, va + 1);
      ExtendStart(was, va, va);
      var f := frames.AllocateFrame();
      if f == None {
        return OutOfFrames;
      }
      ghost var mid := Used();
      var failed := MapTo(va, f.value);
      OwnFramesGrow(was.pages, was.handed, f.value, frames.handed, va);
      AddedOne(was.pages, va, f.value);
      OnePage(was, mid, Used(), f.value, va);
      r := if failed == None then Done(va) else Panic(failed.value);
    }

    /** `vmap_alloc_pages`: while the window has room, the pages it returns were unmapped before, are mapped to
        frames of their own, and nothing else changes. */
    method VmapAllocPages(n: nat) returns (r: Outcome)
      requires Valid()
      requires n * PAGE < WORD ==> nextVmap + n * PAGE <= WORD
      modifies this`pages, this`tables, this`nextVmap, frames.early, frames.usable, frames`handed
      ensures Valid() && r != Panic(AlreadyMapped)
      ensures n * PAGE < WORD ==> nextVmap == old(nextVmap) + n * PAGE
      ensures n * PAGE >= WORD ==> r == OutOfFrames && pages == old(pages) && nextVmap == old(nextVmap)
      ensures forall a :: a in old(pages) ==> !(old(nextVmap) <= a < nextVmap)
      ensures Grown(old(pages), pages, old(nextVmap), nextVmap, old(frames.handed))
      ensures r.Done? ==> r.va == old(nextVmap) && Filled(pages, r.va, r.va + n * PAGE)
      ensures !r.Done? ==> n * PAGE >= WORD || frames.Exhausted()
      ensures Cost(old(Used()), Used(), r.Done?) && TablesFor(old(tables), tables, old(nextVmap), nextVmap)
    {
      hide OwnFrames, Unused, Grown, Filled, Added, IsPage, FrameSources.Valid, FrameSources.Exhausted, Cost, TablesFor, Extended;
      ghost var was := Used();
      ExtendStart(was, nextVmap, nextVmap);
      ExtendEnd(was, was, nextVmap, nextVmap, nextVmap);
      VmapAbove(pages, heapEnd, nextMmio, nextVmap);
      var bytes := n * 4096;
      if bytes >= WORD {
        return OutOfFrames;
      }
      var base := nextVmap;
      VmapRoom(pages, heapEnd, nextMmio, nextVmap, n);
      nextVmap := nextVmap + bytes;
      ExtendStart(was, base, nextVmap);
      var off := 0;
      while off < bytes
        invariant Valid() && nextVmap == base + bytes && off <= bytes
        invariant Unused(pages, heapEnd, nextMmio, base + off) && Extended(was, Used(), base, base + off, nextVmap)
        decreases bytes - off
      {
        VmapAbove(pages, heapEnd, nextMmio, base + off);
        ghost var mid := Used();
        var one := MapFresh(base + off);
        if !one.Done? {
          ExtendFail(was, mid, Used(), base, base + off, nextVmap);
          return one;
        }
        VmapStep(mid.pages, pages, heapEnd, nextMmio, base + off, nextVmap);
        ExtendStep(was, mid, Used(), base, base + off, nextVmap);
        off := off + 0x1000;
      }
      ExtendEnd(was, Used(), base, base + off, nextVmap);
      r := Done(base);
    }

    /** `init_heap`: the whole heap window, page by page. */
    method InitHeap() returns (r: Outcome)
      requires Valid() && heapEnd == KHEAP_START
      modifies this`pages, this`tables, this`heapEnd, frames.early, frames.usable, frames`handed
      ensures Valid() && r != Panic(AlreadyMapped) && r != OutOfFrames
      ensures Grown(old(pages), pages, KHEAP_START, KHEAP_START + KHEAP_SIZE, old(frames.handed))
      ensures r.Done? ==> Filled(pages, KHEAP_START, KHEAP_START + KHEAP_SIZE) && heapEnd == 0xffff_c000_0200_0000
      ensures !r.Done? ==> frames.Exhausted()
      ensures Cost(old(Used()), Used(), r.Done?) && TablesFor(old(tables), tables, KHEAP_START, KHEAP_START + KHEAP_SIZE)
    {
      hide OwnFrames, Unused, Grown, Filled, Added, IsPage, FrameSources.Valid, FrameSources.Exhausted, Cost, TablesFor, Extended;
      ghost var was, hi := Used(), KHEAP_START + KHEAP_SIZE;
      ExtendStart(was, KHEAP_START, hi);
      CursorMoves(KHEAP_START, 0);
      var count := (KHEAP_SIZE + 4095) / 4096;
      var i := 0;
      while i < count
        invariant 0 <= i <= count == 0x2000 && Valid() && heapEnd == KHEAP_START + i * 4096 && IsPage(heapEnd)
        invariant Extended(was, Used(), KHEAP_START, heapEnd, hi)
      {
        HeapAbove(pages, heapEnd, nextMmio, nextVmap);
        ghost var mid := Used();
        var one := MapFresh(KHEAP_START + i * 4096);
        if !one.Done? {
          ExtendFail(was, mid, Used(), KHEAP_START, heapEnd, hi);
          return if one == OutOfFrames then Panic(NoFrame) else one;
        }
        HeapStep(mid.pages, pages, heapEnd, nextMmio, nextVmap);
        ExtendStep(was, mid, Used(), KHEAP_START, heapEnd, hi);
        heapEnd := heapEnd + 4096;
        i := i + 1;
      }
      ExtendEnd(was, Used(), KHEAP_START, heapEnd, hi);
      r := Done(KHEAP_START);
    }

    /** `ensure_mapped_span`: afterwards all pages of the span are mapped, and the ones that were mapped before keep
        their frames. A span below the MMIO window, where the heap is, leaves the cursors of the windows right. */
    method EnsureMappedSpan(start: nat, end: nat) returns (r: Outcome)
      requires Valid() && start < WORD && end + 0xFFF < WORD
      modifies this`pages, this`tables, this`heapEnd, frames.early, frames.usable, frames`handed
      ensures Core() && OwnFrames(pages, frames.handed) && (PageCeil(end) <= MMIO_BASE ==> Valid())
      ensures r != Panic(AlreadyMapped) && r != OutOfFrames
      ensures Grown(old(pages), pages, PageFloor(start), PageCeil(end), old(frames.handed))
      ensures r.Done? ==> Filled(pages, PageFloor(start), PageCeil(end))
      ensures !r.Done? ==> frames.Exhausted()
      ensures Cost(old(Used()), Used(), r.Done?) && TablesFor(old(tables), tables, PageFloor(start), PageCeil(end))
    {
      hide OwnFrames, Unused, PageFloor, PageCeil, And, Grown, Filled, Added, IsPage, FrameSources.Valid, FrameSources.Exhausted;
      hide Cost, TablesFor, Extended;
      SpanBounds(start, end);
      var va := And(start, Not64(0xfff));
      var endAl := And(end + 0xfff, Not64(0xfff));
      ghost var was, first := Used(), va;
      ExtendStart(was, va, endAl);
      while va < endAl
        invariant Core() && OwnFrames(pages, frames.handed) && IsPage(va) && first <= va
        invariant endAl <= MMIO_BASE ==> Unused(pages, heapEnd, nextMmio, nextVmap)
        invariant Extended(was, Used(), first, va, endAl)
      {
        ghost var mid := Used();
        if va !in pages {
          var one := MapFresh(va);
          if !one.Done? {
            ExtendFail(was, mid, Used(), first, va, endAl);
            return if one == OutOfFrames then Panic(NoFrame) else one;
          }
          if endAl <= MMIO_BASE {
            HeapPage(mid.pages, pages, heapEnd, nextMmio, nextVmap, va);
            if KHEAP_START <= va && heapEnd <= va {
              heapEnd := va + 1;
            }
          }
          ExtendStep(was, mid, Used(), first, va, endAl);
        } else {
          ExtendSkip(was, mid, first, va, endAl);
        }
        va := va + 4096;
      }
      ExtendEnd(was, Used(), first, va, endAl);
      r := Done(start);
    }

    /** `map_mmio`: the device's bytes appear at the returned address, in pages that were unmapped before. */
    method MapMmio(pa: nat, len: nat) returns (r: Outcome)
      requires Valid() && pa + len + 0xFFF < PHYS_LIMIT
      requires nextMmio + (PageCeil(pa + len) - PageFloor(pa)) <= VMAP_BASE
      modifies this`pages, this`tables, this`nextMmio, frames.early, frames.usable, frames`handed
      ensures Valid() && r != Panic(AlreadyMapped) && r != OutOfFrames
      ensures nextMmio == old(nextMmio) + (PageCeil(pa + len) - PageFloor(pa))
      ensures forall a :: a in old(pages) ==> !(old(nextMmio) <= a < nextMmio)
      ensures Grown(old(pages), pages, old(nextMmio), nextMmio, {})
      ensures r.Done? ==> old(nextMmio) <= r.va && r.va + len <= nextMmio &&
                          forall a: nat :: r.va <= a < r.va + len ==> Lookup(pages, a) == Some(pa + (a - r.va))
      ensures !r.Done? ==> frames.Exhausted()
      ensures Spent(old(Used()), Used(), 0) && TablesFor(old(tables), tables, old(nextMmio), nextMmio)
    {
      hide Spent, TablesFor, FrameSources.Valid;
      hide OwnFrames, Unused, PageFloor, PageCeil, And, Lookup, IsPage, Grown, Linear, Added, FrameSources.Exhausted;
      MmioBounds(pa, len);
      var pa0 := And(And(pa, 0x000F_FFFF_FFFF_FFFF), Not64(0xFFF));
      var pend := And(And(pa + len + 0xFFF, 0x000F_FFFF_FFFF_FFFF), Not64(0xFFF));
      var size := pend - pa0;
      var off := pa - pa0;
      var va0 := nextMmio;
      PageDifference(pend, pa0);
      MmioRoom(pages, heapEnd, nextMmio, nextVmap, size);
      nextMmio := nextMmio + size;
      NotGrown(pages, va0, nextMmio, {});
      LinearNone(pages, va0, pa0);
      ghost var was := Used();
      NothingSpent(was, va0, nextMmio);
      var paCur: nat, vaCur: nat := pa0, va0;
      while paCur < pend
        invariant Valid() && nextMmio == va0 + size && IsPage(paCur) && IsPage(vaCur)
        invariant pa0 <= paCur <= pend && vaCur - va0 == paCur - pa0
        invariant forall a :: a in pages && MMIO_BASE <= a < VMAP_BASE ==> a < vaCur
        invariant Grown(old(pages), pages, va0, nextMmio, {})
        invariant Linear(pages, va0, vaCur, pa0)
        invariant Spent(was, Used(), 0) && TablesFor(was.tables, tables, va0, nextMmio)
      {
        LastOfSpan(paCur, pend);
        PageSteps(vaCur);
        ghost var mid, before, handed := Used(), pages, frames.handed;
        var failed := MapTo(vaCur, paCur);
        SpentAlso(was, mid, Used());
        TablesAlso(was.tables, mid.tables, tables, va0, nextMmio, vaCur, vaCur + 1);
        KeepsOwn(before, handed, frames.handed, vaCur, paCur);
        MmioPage(before, heapEnd, nextMmio, nextVmap, vaCur, paCur);
        if failed.Some? {
          return Panic(failed.value);
        }
        AddedOne(before, vaCur, paCur);
        Grow(old(pages), before, pages, va0, nextMmio, {}, vaCur);
        LinearStep(before, va0, vaCur, pa0);
        paCur := paCur + 0x1000;
        vaCur := vaCur + 0x1000;
      }
      forall a: nat | va0 + off <= a < va0 + off + len
        ensures Lookup(pages, a) == Some(pa + (a - (va0 + off)))
      {
        MmioByte(pages, va0, pa0, size, a);
      }
      r := Done(va0 + off);
    }
  }

  lemma MmioRoom(pages: map<nat, nat>, heapEnd: nat, nextMmio: nat, nextVmap: nat, size: nat)
    requires Unused(pages, heapEnd, nextMmio, nextVmap) && IsPage(size) && nextMmio + size <= VMAP_BASE
    ensures Unused(pages, heapEnd, nextMmio + size, nextVmap) && IsPage(nextMmio) && MMIO_BASE <= nextMmio
    ensures forall a :: a in pages && MMIO_BASE <= a < VMAP_BASE ==> a < nextMmio
  {
  }

  lemma MmioPage(pages: map<nat, nat>, heapEnd: nat, nextMmio: nat, nextVmap: nat, va: nat, pa: nat)
    requires Unused(pages, heapEnd, nextMmio, nextVmap) && MMIO_BASE <= va < nextMmio
    ensures Unused(pages[va := pa], heapEnd, nextMmio, nextVmap)
  {
  }

  lemma HeapPage(pages: map<nat, nat>, pages': map<nat, nat>, heapEnd: nat, nextMmio: nat, nextVmap: nat, va: nat)
    requires Unused(pages, heapEnd, nextMmio, nextVmap) && Added(pages, pages', va) && va < MMIO_BASE
    ensures Unused(pages', if KHEAP_START <= va && heapEnd <= va then va + 1 else heapEnd, nextMmio, nextVmap)
  {
  }

  /** The next page of the vmap window, and of the heap window, is unmapped. */
  lemma VmapAbove(pages: map<nat, nat>, heapEnd: nat, nextMmio: nat, nextVmap: nat)
    requires Unused(pages, heapEnd, nextMmio, nextVmap)
    ensures VMAP_BASE <= nextVmap && IsPage(nextVmap) && forall a :: a in pages ==> a < nextVmap
  {
  }

  lemma HeapAbove(pages: map<nat, nat>, heapEnd: nat, nextMmio: nat, nextVmap: nat)
    requires Unused(pages, heapEnd, nextMmio, nextVmap)
    ensures KHEAP_START <= heapEnd <= MMIO_BASE && (heapEnd < MMIO_BASE ==> heapEnd !in pages)
  {
  }

  lemma VmapStep(pages: map<nat, nat>, pages': map<nat, nat>, heapEnd: nat, nextMmio: nat, va: nat, nextVmap: nat)
    requires Unused(pages, heapEnd, nextMmio, va) && Added(pages, pages', va)
    requires va < nextVmap <= WORD && IsPage(nextVmap)
    ensures Unused(pages', heapEnd, nextMmio, va + PAGE) && Unused(pages', heapEnd, nextMmio, nextVmap)
    ensures va + PAGE <= nextVmap
  {
    LastOfSpan(va, nextVmap);
  }

  lemma HeapStep(pages: map<nat, nat>, pages': map<nat, nat>, heapEnd: nat, nextMmio: nat, nextVmap: nat)
    requires Unused(pages, heapEnd, nextMmio, nextVmap) && Added(pages, pages', heapEnd) && heapEnd + PAGE <= MMIO_BASE
    ensures Unused(pages', heapEnd + PAGE, nextMmio, nextVmap)
  {
  }

  /** The pages of [va0, va) map to consecutive frames from pa0 on. */
  ghost predicate Linear(pages: map<nat, nat>, va0: nat, va: nat, pa0: nat) {
    forall p: nat :: IsPage(p) && va0 <= p < va ==> p in pages && pages[p] == pa0 + (p - va0)
  }

  lemma LinearNone(pages: map<nat, nat>, va0: nat, pa0: nat)
    ensures Linear(pages, va0, va0, pa0)
  {
  }

  lemma LinearStep(pages: map<nat, nat>, va0: nat, va: nat, pa0: nat)
    requires Linear(pages, va0, va, pa0) && va0 <= va && IsPage(va)
    ensures Linear(pages[va := pa0 + (va - va0)], va0, va + PAGE, pa0)
  {
    PageSteps(va);
  }

  lemma AddedOne(pages: map<nat, nat>, va: nat, pa: nat)
    requires va !in pages
    ensures Added(pages, pages[va := pa], va)
  {
  }

  lemma VmapRoom(pages: map<nat, nat>, heapEnd: nat, nextMmio: nat, nextVmap: nat, n: nat)
    requires Unused(pages, heapEnd, nextMmio, nextVmap) && nextVmap + n * PAGE <= WORD
    ensures Unused(pages, heapEnd, nextMmio, nextVmap + n * PAGE) && IsPage(nextVmap) && VMAP_BASE <= nextVmap
    ensures forall a :: a in pages && VMAP_BASE <= a ==> a < nextVmap
  {
    CursorMoves(nextVmap, n);
  }

  lemma LastOfSpan(x: nat, end: nat)
    requires IsPage(x) && IsPage(end) && x < end
    ensures IsPage(x + PAGE) && x + PAGE <= end
  {
  }

  /** A mapping outside the heap and vmap windows does not touch their frames. */
  lemma KeepsOwn(pages: map<nat, nat>, handed: set<nat>, handed': set<nat>, va: nat, pa: nat)
    requires OwnFrames(pages, handed) && handed <= handed' && !Anonymous(va)
    ensures OwnFrames(pages, handed') && OwnFrames(pages[va := pa], handed')
  {
  }

  lemma MmioBounds(pa: nat, len: nat)
    requires pa + len + 0xFFF < PHYS_LIMIT
    ensures And(And(pa, 0x000F_FFFF_FFFF_FFFF), Not64(0xFFF)) == PageFloor(pa)
    ensures And(And(pa + len + 0xFFF, 0x000F_FFFF_FFFF_FFFF), Not64(0xFFF)) == PageCeil(pa + len)
    ensures IsPage(PageFloor(pa)) && IsPage(PageCeil(pa + len)) && PageFloor(pa) <= pa <= pa + len <= PageCeil(pa + len)
  {
    hide And;
    Mask52(pa);
    Mask52(pa + len + 0xFFF);
    PageRounding(pa);
    PageRounding(pa + len);
  }

  lemma Mask52(x: nat)
    requires x < PHYS_LIMIT
    ensures And(x, 0x000F_FFFF_FFFF_FFFF) == x
  {
    hide And;
    Pow2Values();
    AndField(x, 0, 52);
  }

  lemma PageDifference(x: nat, y: nat)
    requires IsPage(x) && IsPage(y) && y <= x
    ensures IsPage(x - y)
  {
  }

  lemma MmioByte(pages: map<nat, nat>, va0: nat, pa0: nat, size: nat, a: nat)
    requires IsPage(va0) && IsPage(size) && va0 <= a < va0 + size
    requires Linear(pages, va0, va0 + size, pa0)
    ensures Lookup(pages, a) == Some(pa0 + (a - va0))
  {
    assert IsPage(PageFloor(a)) && va0 <= PageFloor(a);
  }

  lemma SpanBounds(start: nat, end: nat)
    requires start < WORD && end + 0xFFF < WORD
    ensures And(start, Not64(0xfff)) == PageFloor(start) && And(end + 0xfff, Not64(0xfff)) == PageCeil(end)
    ensures IsPage(PageFloor(start)) && IsPage(PageCeil(end))
  {
    hide And;
    PageRounding(start);
    PageRounding(end);
  }

  lemma CursorMoves(base: nat, n: nat)
    requires IsPage(base)
    ensures IsPage(base + n * PAGE)
  {
    DivModUnique(base + n * PAGE, PAGE, base / PAGE + n, 0);
  }

  /** The loader leaves the three windows empty if and only if the direct map ends below the heap window. */
  lemma WindowsFreeAtBoot(y: BootMap.Layout)
    requires BootMap.LayoutOk(y) && y.maxVaddr <= VA_LIMIT / 2 && y.identEnd <= VA_LIMIT / 2
    ensures (forall va :: KHEAP_START <= va < WORD ==> BootMap.IntendedTranslation(y, va) == Unmapped)
            <==> Hhdm.HHDM_BASE + y.memEnd <= KHEAP_START
  {
    if Hhdm.HHDM_BASE + y.memEnd > KHEAP_START {
      assert BootMap.IntendedTranslation(y, KHEAP_START).Mapped?;
    }
  }
}

/** What the fixed-size tables of the memory manager lose, and when: usable memory that the list of ranges has no room
    for, the page of the start-up trampoline, and the early heap. */
module BootMemory {

  import opened PageTables
  import opened Frames

  /* ------------------------------ Usable memory ------------------------------ */

  /** The list holds every whole usable page. */
  ghost predicate HoldsAll(ranges: seq<Range>, mm: seq<MemoryRegion>) {
    forall p: nat :: ListFree(ranges, [], p) <==> IsPage(p) && InMap(mm, |mm|, p)
  }

  /** The seeded list holds every whole usable page if and only if there are at most MAX_USABLE ranges. */
  lemma UsableCompleteIffFits(mm: seq<MemoryRegion>)
    requires MapOk(mm)
    ensures HoldsAll(Capped(Clipped(mm, |mm|)), mm) <==> |Clipped(mm, |mm|)| <= MAX_USABLE
  {
    hide MapOk, Clipped, InMap, ListFree;
    if |Clipped(mm, |mm|)| <= MAX_USABLE {
      forall p: nat
        ensures ListFree(Clipped(mm, |mm|), [], p) <==> IsPage(p) && InMap(mm, |mm|, p)
      {
        UncutPages(mm, p);
      }
    } else {
      var p := FirstLost(mm);
    }
  }

  lemma UncutPages(mm: seq<MemoryRegion>, p: nat)
    ensures ListFree(Clipped(mm, |mm|), [], p) <==> IsPage(p) && InMap(mm, |mm|, p)
  {
    hide Clipped, InMap, ListFree;
    SeededPages(mm, |mm|, [], p);
  }

  /** The first page of the first range that finds no room is lost. */
  lemma FirstLost(mm: seq<MemoryRegion>) returns (p: nat)
    requires MapOk(mm) && |Clipped(mm, |mm|)| > MAX_USABLE
    ensures p == Clipped(mm, |mm|)[MAX_USABLE].start
    ensures IsPage(p) && InMap(mm, |mm|, p) && !ListFree(Capped(Clipped(mm, |mm|)), [], p)
  {
    hide MapOk, Clipped, InMap;
    var all := Clipped(mm, |mm|);
    ClippedApart(mm, |mm|);
    p := all[MAX_USABLE].start;
    LastOfRange(all[MAX_USABLE]);
    assert PageIn(all[MAX_USABLE], p);
    assert ListFree(all, [], p);
    UncutPages(mm, p);
    forall i | 0 <= i < MAX_USABLE
      ensures !PageIn(Capped(all)[i], p)
    {
      assert Capped(all)[i] == all[i];
    }
  }

  lemma LastOfRange(r: Range)
    requires IsPage(r.start) && IsPage(r.end) && r.start < r.end
    ensures r.start + PAGE <= r.end
  {
  }

  /** A memory map of single usable pages with a gap after each. */
  function Scattered(n: nat): seq<MemoryRegion> {
    seq(n, i requires 0 <= i => MemoryRegion(0x2000 * i, 0x1000, 1))
  }

  lemma {:induction false} ScatteredRanges(n: nat, k: nat)
    requires k <= n
    ensures Clipped(Scattered(n), k) == seq(k, i requires 0 <= i => Range(0x2000 * i, 0x2000 * i + 0x1000))
  {
    hide Clip, Kept;
    if k != 0 {
      ScatteredRanges(n, k - 1);
      ScatteredClip(k - 1);
    }
  }

  lemma ScatteredClip(i: nat)
    ensures Kept(MemoryRegion(0x2000 * i, 0x1000, 1))
    ensures Clip(MemoryRegion(0x2000 * i, 0x1000, 1)) == Range(0x2000 * i, 0x2000 * i + 0x1000)
  {
    hide PageFloor, PageCeil;
    PageEnds(2 * i);
    PageEnds(2 * i + 1);
  }

  lemma PageEnds(k: nat)
    ensures PageFloor(0x1000 * k) == 0x1000 * k == PageCeil(0x1000 * k)
  {
  }

  /** With 257 separate usable pages the last one is lost. */
  lemma LostPage()
    ensures var mm := Scattered(257);
            && MapOk(mm) && IsPage(0x20_0000) && InMap(mm, 257, 0x20_0000)
            && !ListFree(Capped(Clipped(mm, 257)), [], 0x20_0000)
  {
    hide Clipped, ListFree;
    var mm := Scattered(257);
    ScatteredRanges(257, 257);
    var p := FirstLost(mm);
  }

  /* ------------------------------ The trampoline ------------------------------ */

  const TRAMPOLINE: nat := 0x1000

  /** The page of some range lies over address a. */
  predicate Over(r: Range, a: nat) { r.start < r.end && PageFloor(r.start) <= a < PageCeil(r.end) }

  /** The firmware and framebuffer ranges, which come before the fixed ones. */
  function FirmwareRanges(boot: BootInfo): (rs: seq<Range>)
    ensures ToReserve(boot) == rs + FixedRanges(boot)
  {
    RegionRanges(boot, |boot.memoryMap|)
    + (if boot.fbAddr != 0 && boot.fbPitch != 0 then [Range(boot.fbAddr, boot.fbAddr + boot.fbPitch * boot.fbHeight)] else [])
  }

  lemma PagesConcat(a: seq<Range>, b: seq<Range>, x: nat)
    ensures InPagesOf(a + b, x) <==> InPagesOf(a, x) || InPagesOf(b, x)
  {
    hide PageFloor, PageCeil;
    var c := a + b;
    if i :| 0 <= i < |a| && a[i].start < a[i].end && PageFloor(a[i].start) <= x < PageCeil(a[i].end) {
      assert c[i] == a[i];
    }
    if i :| 0 <= i < |b| && b[i].start < b[i].end && PageFloor(b[i].start) <= x < PageCeil(b[i].end) {
      assert c[|a| + i] == b[i];
    }
    if InPagesOf(c, x) {
      var i :| 0 <= i < |c| && c[i].start < c[i].end && PageFloor(c[i].start) <= x < PageCeil(c[i].end);
      assert c[i] == if i < |a| then a[i] else b[i - |a|];
    }
  }

  /** Which of the fixed ranges can lie over the trampoline. */
  lemma FixedOverTrampoline(boot: BootInfo)
    ensures var rs := FixedRanges(boot);
            && (Over(rs[0], TRAMPOLINE) <==> boot.low32Paddr > TRAMPOLINE)
            && (Over(rs[1], TRAMPOLINE) <==> boot.earlyPaddr + boot.earlyLen < TRAMPOLINE + PAGE)
            && !Over(rs[2], TRAMPOLINE) && !Over(rs[3], TRAMPOLINE) && !Over(rs[4], TRAMPOLINE)
  {
  }

  /** What `init` has gone through before its i-th fixed range, and whether the table has room then. */
  function Before(boot: BootInfo, i: nat): seq<Range>
    requires i <= 6
  {
    FirmwareRanges(boot) + FixedRanges(boot)[..i]
  }

  predicate Room(boot: BootInfo, i: nat)
    requires i <= 6
  {
    |Fitting(Before(boot, i))| < MAX_RESV
  }

  lemma NextFixed(boot: BootInfo, i: nat, a: nat)
    requires i < 6
    ensures InPagesOf(Fitting(Before(boot, i + 1)), a) <==>
            InPagesOf(Fitting(Before(boot, i)), a) || (Room(boot, i) && Over(FixedRanges(boot)[i], a))
  {
    var r := FixedRanges(boot)[i];
    assert Before(boot, i + 1) == Before(boot, i) + [r];
    hide Before, FixedRanges, InPagesOf, Fitting, PageFloor, PageCeil;
    FittingAppend(Before(boot, i), r);
    PagesAppend(Fitting(Before(boot, i)), r);
  }

  /** `init` reserves page 0x8000, but the trampoline is put at 0x1000. That page is reserved if and only if, each with
      room in the table when its turn comes, firmware or framebuffer lie over it, the low pool starts above it, the
      early heap ends before its end, or the kernel lies over it. */
  lemma TrampolineReservedIff(boot: BootInfo)
    ensures InPagesOf(Fitting(ToReserve(boot)), TRAMPOLINE) <==>
            || InPagesOf(Fitting(FirmwareRanges(boot)), TRAMPOLINE)
            || (Room(boot, 0) && boot.low32Paddr > TRAMPOLINE)
            || (Room(boot, 1) && boot.earlyPaddr + boot.earlyLen < TRAMPOLINE + PAGE)
            || (Room(boot, 5) && Over(Range(boot.kernelPhys, boot.kernelPhys + boot.kernelSize), TRAMPOLINE))
  {
    FixedOverTrampoline(boot);
    assert Before(boot, 0) == FirmwareRanges(boot) && Before(boot, 6) == ToReserve(boot);
    assert FixedRanges(boot)[5] == Range(boot.kernelPhys, boot.kernelPhys + boot.kernelSize);
    hide Over, InPagesOf, ToReserve, Fitting, FirmwareRanges, FixedRanges, Before, Room;
    NextFixed(boot, 0, TRAMPOLINE);
    NextFixed(boot, 1, TRAMPOLINE);
    NextFixed(boot, 2, TRAMPOLINE);
    NextFixed(boot, 3, TRAMPOLINE);
    NextFixed(boot, 4, TRAMPOLINE);
    NextFixed(boot, 5, TRAMPOLINE);
  }

  /** A machine whose low pool of 2 MiB starts at the trampoline: the pool is in the memory map as the loader's own
      memory, and its first page is not reserved. */
  const LOW_POOL_AT_TRAMPOLINE: BootInfo :=
    BootInfo([MemoryRegion(0x1000, 0x20_0000, 3)], 0, 0, 0, 0x1000, 0x20_0000, 0x100_0000, 0x400_0000, 0x40_0000, 0x10_0000)

  lemma TrampolineNotReserved()
    ensures !InPagesOf(Fitting(ToReserve(LOW_POOL_AT_TRAMPOLINE)), TRAMPOLINE)
    ensures LowPoolHandsOut(LOW_POOL_AT_TRAMPOLINE, TRAMPOLINE)
  {
    hide InPagesOf, Fitting;
    var boot := LOW_POOL_AT_TRAMPOLINE;
    assert boot.memoryMap[0] == MemoryRegion(0x1000, 0x20_0000, 3);
    assert RegionRanges(boot, 0) == [];
    assert RegionRanges(boot, 1) == [];
    assert FirmwareRanges(boot) == [];
    NothingYet();
    TrampolineReservedIff(boot);
  }

  /** The page lies in the low pool. */
  predicate LowPoolHandsOut(boot: BootInfo, p: nat) {
    IsPage(p) && boot.low32Paddr <= p && p + PAGE <= boot.low32Paddr + boot.low32Len
  }

  /* ------------------------------ The kernel ------------------------------ */

  /** A memory map of single firmware pages with a gap after each. */
  function SingleFirmwarePages(n: nat): seq<MemoryRegion> {
    seq(n, i requires 0 <= i => MemoryRegion(0x100_0000 + 0x2000 * i, 0x1000, 3))
  }

  /** A machine with 128 of them, and the kernel above. */
  function CrowdedMachine(): BootInfo {
    BootInfo(SingleFirmwarePages(128), 0, 0, 0, 0x20_0000, 0x20_0000, 0x4000_0000, 0x400_0000, 0x1000_0000, 0x10_0000)
  }

  lemma {:induction false} CrowdedRanges(k: nat)
    requires k <= 128
    ensures RegionRanges(CrowdedMachine(), k) ==
            seq(k, i requires 0 <= i => Range(0x100_0000 + 0x2000 * i, 0x100_0000 + 0x2000 * i + 0x1000))
  {
    if k != 0 {
      CrowdedRanges(k - 1);
    }
  }

  /** Ranges that are not empty and few enough all find room, and leave none to the ones after them once the table is
      full. */
  lemma {:induction false} AllFitExactly(rs: seq<Range>)
    requires |rs| <= MAX_RESV && forall i :: 0 <= i < |rs| ==> rs[i].start < rs[i].end
    ensures Fitting(rs) == rs
  {
    if rs != [] {
      AllFitExactly(rs[..|rs| - 1]);
    }
  }

  lemma {:induction false} FullTable(rs: seq<Range>, more: seq<Range>)
    requires |Fitting(rs)| == MAX_RESV
    ensures Fitting(rs + more) == Fitting(rs)
    decreases |more|
  {
    if more == [] {
      assert rs + more == rs;
    } else {
      var front, r := more[..|more| - 1], more[|more| - 1];
      FullTable(rs, front);
      FittingAppend(rs + front, r);
      assert rs + more == rs + front + [r];
    }
  }

  /** On that machine the first page of the kernel is not reserved. */
  lemma KernelNotReserved()
    ensures var boot := CrowdedMachine();
            boot.kernelPhys == 0x1000_0000 && !InPagesOf(Fitting(ToReserve(boot)), boot.kernelPhys)
  {
    var boot := CrowdedMachine();
    var rs := RegionRanges(boot, 128);
    CrowdedRanges(128);
    hide RegionRanges;
    AllFitExactly(rs);
    assert FirmwareRanges(boot) == rs;
    FullTable(rs, FixedRanges(boot));
    hide Fitting, ToReserve, FirmwareRanges;
    forall i | 0 <= i < |rs|
      ensures !Over(rs[i], 0x1000_0000)
    {
      BelowKernel(rs[i].end);
    }
  }

  lemma BelowKernel(end: nat)
    requires end <= 0x200_0000
    ensures PageCeil(end) <= 0x1000_0000
  {
  }

  /* ------------------------------ The early heap ------------------------------ */

  /** The table holds what `init` recorded. */
  ghost predicate Recorded(resv: seq<Range>, boot: BootInfo) {
    && (forall i :: 0 <= i < |resv| ==> resv[i].start < resv[i].end && IsPage(resv[i].start) && IsPage(resv[i].end))
    && (forall a: nat :: InUnion(resv, a) <==> InPagesOf(Fitting(ToReserve(boot)), a))
  }

  lemma CoversRecorded(table: ReservedTable, boot: BootInfo)
    requires Covers(table, ToReserve(boot))
    ensures Recorded(table.ranges, boot)
  {
    hide ToReserve, Fitting, InUnion, InPagesOf;
  }

  /** p is a page of the early heap as the early allocator gets it. */
  predicate HeapPage(boot: BootInfo, p: nat) {
    IsPage(p) && PageFloor(boot.earlyPaddr) <= p && p + PAGE <= PageCeil(boot.earlyPaddr + boot.earlyLen)
  }

  lemma PageReservedIff(resv: seq<Range>, boot: BootInfo, p: nat)
    requires Recorded(resv, boot) && IsPage(p)
    ensures Reserved(resv, p) <==> InPagesOf(Fitting(ToReserve(boot)), p)
  {
    hide ToReserve, Fitting, InPagesOf;
    if Reserved(resv, p) {
      var i :| 0 <= i < |resv| && Overlaps(resv[i], p, p + PAGE);
      PageBoundary(resv[i].start, p);
      assert InUnion(resv, p);
    }
    if InUnion(resv, p) {
      var i :| 0 <= i < |resv| && resv[i].start <= p < resv[i].end;
      assert Overlaps(resv[i], p, p + PAGE);
    }
  }

  lemma PageBoundary(a: nat, p: nat)
    requires IsPage(a) && IsPage(p) && a < p + PAGE
    ensures a <= p
  {
  }

  /** The early allocator has nothing to hand out if and only if every page of the early heap is among the ranges that
      `init` found room for. */
  lemma EarlyHeapYieldsNothingIff(boot: BootInfo, resv: seq<Range>)
    requires Recorded(resv, boot)
    ensures YieldsNothing(PageFloor(boot.earlyPaddr), PageCeil(boot.earlyPaddr + boot.earlyLen), resv) <==>
            forall p: nat :: HeapPage(boot, p) ==> InPagesOf(Fitting(ToReserve(boot)), p)
  {
    hide Recorded, ToReserve, Fitting, InPagesOf, Reserved, PageFloor, PageCeil;
    var lo, hi := PageFloor(boot.earlyPaddr), PageCeil(boot.earlyPaddr + boot.earlyLen);
    if YieldsNothing(lo, hi, resv) {
      forall p: nat | HeapPage(boot, p)
        ensures InPagesOf(Fitting(ToReserve(boot)), p)
      {
        assert !BumpFree(lo, hi, resv, p);
        PageReservedIff(resv, boot, p);
      }
    }
    if forall p: nat :: HeapPage(boot, p) ==> InPagesOf(Fitting(ToReserve(boot)), p) {
      forall p: nat
        ensures !BumpFree(lo, hi, resv, p)
      {
        if HeapPage(boot, p) {
          PageReservedIff(resv, boot, p);
        }
      }
    }
  }

  /** Region i of the memory map is not usable, keeps clear of the low pool, and has a page over a. */
  predicate FirmwareOver(boot: BootInfo, i: nat, a: nat)
    requires i < |boot.memoryMap|
  {
    var mr := boot.memoryMap[i];
    && mr.typ != 1 && mr.len > 0
    && (mr.physStart + mr.len <= boot.low32Paddr || boot.low32Paddr + boot.low32Len <= mr.physStart)
    && PageFloor(mr.physStart) <= a < PageCeil(mr.physStart + mr.len)
  }

  lemma {:induction false} RegionPages(boot: BootInfo, n: nat, a: nat)
    requires n <= |boot.memoryMap|
    ensures InPagesOf(RegionRanges(boot, n), a) <==> exists i :: 0 <= i < n && FirmwareOver(boot, i, a)
  {
    hide PageFloor, PageCeil, InPagesOf;
    if n == 0 {
      NothingYet();
    } else {
      var mr := boot.memoryMap[n - 1];
      var rest := RegionRanges(boot, n - 1);
      RegionPages(boot, n - 1, a);
      PagesAppend(rest, Range(mr.physStart, mr.physStart + mr.len));
      assert rest + [] == rest;
      assert InPagesOf(RegionRanges(boot, n), a) <==> InPagesOf(rest, a) || FirmwareOver(boot, n - 1, a);
    }
  }

  /** With at most 128 ranges, an address is reserved exactly if it shares a page with a region of the memory map that is
      not usable and keeps clear of the low pool, with the framebuffer, with anything below the low pool, with the MiB
      behind the early heap, with the kernel, or if it lies in one of three fixed pages. */
  lemma ReservedAddresses(boot: BootInfo, a: nat)
    requires |ToReserve(boot)| <= 128
    ensures InPagesOf(Fitting(ToReserve(boot)), a) <==>
            || (exists i :: 0 <= i < |boot.memoryMap| && FirmwareOver(boot, i, a))
            || (boot.fbAddr != 0 && boot.fbPitch * boot.fbHeight > 0
                && PageFloor(boot.fbAddr) <= a < PageCeil(boot.fbAddr + boot.fbPitch * boot.fbHeight))
            || a < PageCeil(boot.low32Paddr)
            || PageFloor(boot.earlyPaddr + boot.earlyLen) <= a < PageCeil(boot.earlyPaddr + boot.earlyLen + 0x10_0000)
            || (boot.kernelSize > 0 && PageFloor(boot.kernelPhys) <= a < PageCeil(boot.kernelPhys + boot.kernelSize))
            || 0x8000 <= a < 0x9000 || 0xFEE0_0000 <= a < 0xFEE0_1000 || 0xFEC0_0000 <= a < 0xFEC0_1000
  {
    hide InPagesOf, Fitting;
    AllFit(ToReserve(boot));
    PagesConcat(FirmwareRanges(boot), FixedRanges(boot), a);
    FirmwarePages(boot, a);
    FixedPages(boot, a);
    hide ToReserve, FirmwareRanges, FixedRanges, FirmwareOver, PageFloor, PageCeil;
  }

  lemma FirmwarePages(boot: BootInfo, a: nat)
    ensures InPagesOf(FirmwareRanges(boot), a) <==>
            || (exists i :: 0 <= i < |boot.memoryMap| && FirmwareOver(boot, i, a))
            || (boot.fbAddr != 0 && boot.fbPitch * boot.fbHeight > 0
                && PageFloor(boot.fbAddr) <= a < PageCeil(boot.fbAddr + boot.fbPitch * boot.fbHeight))
  {
    hide InPagesOf, PageFloor, PageCeil, RegionRanges;
    var regions := RegionRanges(boot, |boot.memoryMap|);
    RegionPages(boot, |boot.memoryMap|, a);
    PagesAppend(regions, Range(boot.fbAddr, boot.fbAddr + boot.fbPitch * boot.fbHeight));
    assert regions + [] == regions;
    if boot.fbPitch == 0 {
      assert boot.fbPitch * boot.fbHeight == 0;
    }
  }

  lemma FixedPages(boot: BootInfo, a: nat)
    ensures InPagesOf(FixedRanges(boot), a) <==>
            || a < PageCeil(boot.low32Paddr)
            || PageFloor(boot.earlyPaddr + boot.earlyLen) <= a < PageCeil(boot.earlyPaddr + boot.earlyLen + 0x10_0000)
            || (boot.kernelSize > 0 && PageFloor(boot.kernelPhys) <= a < PageCeil(boot.kernelPhys + boot.kernelSize))
            || 0x8000 <= a < 0x9000 || 0xFEE0_0000 <= a < 0xFEE0_1000 || 0xFEC0_0000 <= a < 0xFEC0_1000
  {
    var rs := FixedRanges(boot);
    assert |rs| == 6;
    EmptyPool(boot.low32Paddr);
    FixedPage(0x8000);
    FixedPage(0xFEE0_0000);
    FixedPage(0xFEC0_0000);
    hide PageFloor, PageCeil;
    assert InPagesOf(rs, a) <==>
           Over(rs[0], a) || Over(rs[1], a) || Over(rs[2], a) || Over(rs[3], a) || Over(rs[4], a) || Over(rs[5], a);
  }

  lemma EmptyPool(x: nat)
    ensures PageFloor(0) == 0 && (x == 0 ==> PageCeil(x) == 0)
  {
  }

  lemma FixedPage(p: nat)
    requires p == 0x8000 || p == 0xFEE0_0000 || p == 0xFEC0_0000
    ensures PageFloor(p) == p && PageCeil(p + 0x1000) == p + 0x1000
  {
  }

  /** A bump allocator over [next, end) has no frame to hand out. */
  ghost predicate YieldsNothing(next: nat, end: nat, resv: seq<Range>) {
    forall p: nat :: !BumpFree(next, end, resv, p)
  }

  /** The loader's early heap is not usable memory in the map that it hands over. In particular, when a region of that map apart from
      the low pool covers it, `init` reserves it, and the early allocator has no frame to hand out. */
  lemma EarlyHeapReserved(boot: BootInfo, resv: seq<Range>, i: nat)
    requires |ToReserve(boot)| <= MAX_RESV && Recorded(resv, boot)
    requires i < |boot.memoryMap| && Unusable(boot, boot.memoryMap[i]) && boot.memoryMap[i].len > 0
    requires boot.memoryMap[i].physStart <= boot.earlyPaddr
    requires boot.earlyPaddr + boot.earlyLen <= boot.memoryMap[i].physStart + boot.memoryMap[i].len
    ensures YieldsNothing(PageFloor(boot.earlyPaddr), PageCeil(boot.earlyPaddr + boot.earlyLen), resv)
  {
    var start, end := boot.earlyPaddr, boot.earlyPaddr + boot.earlyLen;
    var mr := boot.memoryMap[i];
    AllFit(ToReserve(boot));
    forall p: nat | HeapPage(boot, p)
      ensures InPagesOf(Fitting(ToReserve(boot)), p)
    {
      CoveredPage(mr.physStart, mr.physStart + mr.len, start, end, p);
      assert FirmwareOver(boot, i, p);
      RegionPages(boot, |boot.memoryMap|, p);
      PagesOfAll(boot, p);
    }
    EarlyHeapYieldsNothingIff(boot, resv);
  }

  lemma CoveredPage(lo: nat, hi: nat, start: nat, end: nat, p: nat)
    requires lo < hi && lo <= start && end <= hi && PageFloor(start) <= p && p + PAGE <= PageCeil(end)
    ensures Over(Range(lo, hi), p)
  {
  }

  lemma PagesOfAll(boot: BootInfo, a: nat)
    requires InPagesOf(RegionRanges(boot, |boot.memoryMap|), a)
    ensures InPagesOf(ToReserve(boot), a)
  {
    hide InPagesOf, RegionRanges;
    var regions := RegionRanges(boot, |boot.memoryMap|);
    var rest := FirmwareRanges(boot)[|regions|..];
    assert FirmwareRanges(boot) == regions + rest;
    PagesConcat(regions, rest, a);
    PagesConcat(FirmwareRanges(boot), FixedRanges(boot), a);
  }

  /** A machine whose memory map lists the early heap as the loader's own memory. */
  const HEAP_LISTED: BootInfo :=
    BootInfo([MemoryRegion(0x100_0000, 0x400_0000, 3)], 0, 0, 0, 0x20_0000, 0x20_0000, 0x100_0000, 0x400_0000, 0x40_0000, 0x10_0000)

  /** Its early allocator has no frame to hand out. */
  lemma EarlyHeapLost(resv: seq<Range>)
    requires Recorded(resv, HEAP_LISTED)
    ensures PageFloor(HEAP_LISTED.earlyPaddr) == 0x100_0000
    ensures PageCeil(HEAP_LISTED.earlyPaddr + HEAP_LISTED.earlyLen) == 0x500_0000
    ensures YieldsNothing(0x100_0000, 0x500_0000, resv)
  {
    var boot := HEAP_LISTED;
    assert boot.memoryMap[0] == MemoryRegion(0x100_0000, 0x400_0000, 3);
    assert |RegionRanges(boot, 0)| == 0;
    assert |RegionRanges(boot, 1)| <= 1;
    hide Recorded, InPagesOf, Fitting;
    EarlyHeapReserved(boot, resv, 0);
  }
}

/** Physical frames: the reserved table, the bump allocators, the list of usable ranges behind them, and the
    uniqueness of what they hand out. */
module Frames {

  import opened Wrappers
  import opened Bits
  import opened PageWalk
  import opened PageTables

  const MAX_RESV: nat := 128
  const MAX_USABLE: nat := 256

  datatype Range = Range(start: nat, end: nat)

  predicate IsPage(p: nat) { p % PAGE == 0 }

  /** The page at p lies inside r. */
  predicate PageIn(r: Range, p: nat) { r.start <= p && p + PAGE <= r.end }

  /* ------------------------------ Reserved ranges ------------------------------ */

  predicate Overlaps(r: Range, s: nat, e: nat) { s < r.end && e > r.start }

  /** Some recorded range overlaps [s, e). */
  predicate AnyOverlap(resv: seq<Range>, s: nat, e: nat) {
    exists i :: 0 <= i < |resv| && Overlaps(resv[i], s, e)
  }

  ghost predicate InUnion(resv: seq<Range>, a: nat) {
    exists i :: 0 <= i < |resv| && resv[i].start <= a < resv[i].end
  }

  predicate Reserved(resv: seq<Range>, p: nat) { AnyOverlap(resv, p, p + PAGE) }

  class ReservedTable {
    var ranges: seq<Range>

    ghost predicate Valid()
      reads this
    {
      && |ranges| <= MAX_RESV
      && forall i :: 0 <= i < |ranges| ==> ranges[i].start < ranges[i].end && IsPage(ranges[i].start) && IsPage(ranges[i].end)
    }

    constructor ()
      ensures Valid() && ranges == []
    {
      ranges := [];
    }

    /** Records the pages of [start, start + len); false means that the table is full. */
    method ReserveRange(start: nat, len: nat) returns (ok: bool)
      requires Valid() && start + len + 0xFFF < WORD
      modifies this
      ensures Valid()
      ensures ok <==> len == 0 || |old(ranges)| < MAX_RESV
      ensures |ranges| == |old(ranges)| + (if ok && len > 0 then 1 else 0)
      ensures forall a: nat :: InUnion(ranges, a) <==>
                InUnion(old(ranges), a) || (ok && len > 0 && PageFloor(start) <= a < PageCeil(start + len))
    {
      if len == 0 {
        return true;
      }
      hide AlignDown, AlignUp, PageFloor, PageCeil, IsPage;
      PageRounding(start);
      PageRounding(start + len);
      RoundedSpan(start, start + len);
      var s := AlignDown(start, 0x1000);
      var e := AlignUp(start + len, 0x1000);
      ok := |ranges| < MAX_RESV;
      if ok {
        UnionAppend(ranges, Range(s, e));
        ranges := ranges + [Range(s, e)];
      }
    }

    /** True exactly if some byte of the pages of [phys, phys + len) is in a recorded range. */
    method IsReservedRange(phys: nat, len: nat) returns (r: bool)
      requires Valid() && phys + len + 0xFFF < WORD
      ensures r <==> len > 0 && exists a: nat :: PageFloor(phys) <= a < PageCeil(phys + len) && InUnion(ranges, a)
      ensures len == PAGE && IsPage(phys) ==> r == Reserved(ranges, phys)
    {
      if len == 0 {
        return false;
      }
      hide AlignDown, AlignUp, PageFloor, PageCeil, IsPage;
      PageRounding(phys);
      PageRounding(phys + len);
      RoundedSpan(phys, phys + len);
      var s := AlignDown(phys, 0x1000);
      var e := AlignUp(phys + len, 0x1000);
      ExactPage(phys, len);
      OverlapIsIntersection(ranges, s, e);
      for i := 0 to |ranges|
        invariant forall j :: 0 <= j < i ==> !Overlaps(ranges[j], s, e)
      {
        if s < ranges[i].end && e > ranges[i].start {
          assert Overlaps(ranges[i], s, e);
          return true;
        }
      }
      r := false;
    }
  }

  lemma RoundedSpan(x: nat, y: nat)
    requires x < y
    ensures PageFloor(x) < PageCeil(y) && IsPage(PageFloor(x)) && IsPage(PageCeil(y))
  {
  }

  lemma ExactPage(x: nat, len: nat)
    ensures len == PAGE && IsPage(x) ==> PageFloor(x) == x && PageCeil(x + len) == x + PAGE
  {
  }

  lemma UnionAppend(resv: seq<Range>, r: Range)
    ensures forall a: nat :: InUnion(resv + [r], a) <==> InUnion(resv, a) || r.start <= a < r.end
  {
    var more := resv + [r];
    forall a: nat
      ensures InUnion(more, a) <==> InUnion(resv, a) || r.start <= a < r.end
    {
      if InUnion(resv, a) {
        var i :| 0 <= i < |resv| && resv[i].start <= a < resv[i].end;
        assert more[i] == resv[i];
      }
      if r.start <= a < r.end {
        assert more[|resv|] == r;
      }
    }
  }

  /** The two comparisons of the scan decide whether the sets of addresses meet. */
  lemma OverlapIsIntersection(resv: seq<Range>, s: nat, e: nat)
    requires s < e && forall i :: 0 <= i < |resv| ==> resv[i].start < resv[i].end
    ensures AnyOverlap(resv, s, e) <==> exists a: nat :: s <= a < e && InUnion(resv, a)
  {
    if AnyOverlap(resv, s, e) {
      var i :| 0 <= i < |resv| && Overlaps(resv[i], s, e);
      var a := if s < resv[i].start then resv[i].start else s;
      assert s <= a < e && InUnion(resv, a);
    }
    if a: nat :| s <= a < e && InUnion(resv, a) {
      var i :| 0 <= i < |resv| && resv[i].start <= a < resv[i].end;
      assert Overlaps(resv[i], s, e);
    }
  }

  /* ------------------------------ The boot-time reservations ------------------------------ */

  datatype BootInfo = BootInfo(
    memoryMap: seq<MemoryRegion>, fbAddr: nat, fbPitch: nat, fbHeight: nat,
    low32Paddr: nat, low32Len: nat, earlyPaddr: nat, earlyLen: nat, kernelPhys: nat, kernelSize: nat)

  /** A region of the memory map that is not usable, and that the low pool is not part of. */
  predicate Unusable(boot: BootInfo, mr: MemoryRegion) {
    mr.typ != 1 && (mr.physStart + mr.len <= boot.low32Paddr || mr.physStart >= boot.low32Paddr + boot.low32Len)
  }

  function RegionRanges(boot: BootInfo, n: nat): seq<Range>
    requires n <= |boot.memoryMap|
  {
    if n == 0 then []
    else
      var mr := boot.memoryMap[n - 1];
      RegionRanges(boot, n - 1) + (if Unusable(boot, mr) then [Range(mr.physStart, mr.physStart + mr.len)] else [])
  }

  /** Everything that `init` sets out to reserve, in order. */
  function ToReserve(boot: BootInfo): seq<Range> {
    RegionRanges(boot, |boot.memoryMap|)
    + (if boot.fbAddr != 0 && boot.fbPitch != 0 then [Range(boot.fbAddr, boot.fbAddr + boot.fbPitch * boot.fbHeight)] else [])
    + FixedRanges(boot)
  }

  function FixedRanges(boot: BootInfo): seq<Range> {
    var heapEnd := boot.earlyPaddr + boot.earlyLen;
    [Range(0, boot.low32Paddr), Range(heapEnd, heapEnd + 0x10_0000), Range(0x8000, 0x9000),
     Range(0xFEE0_0000, 0xFEE0_1000), Range(0xFEC0_0000, 0xFEC0_1000),
     Range(boot.kernelPhys, boot.kernelPhys + boot.kernelSize)]
  }

  /** Address a lies in a page of one of the ranges. */
  ghost predicate InPagesOf(rs: seq<Range>, a: nat) {
    exists i :: 0 <= i < |rs| && rs[i].start < rs[i].end && PageFloor(rs[i].start) <= a < PageCeil(rs[i].end)
  }

  /** The ranges that find room: the first MAX_RESV of those that are not empty. */
  function Fitting(rs: seq<Range>): seq<Range> {
    if rs == [] then []
    else
      var k, r := Fitting(rs[..|rs| - 1]), rs[|rs| - 1];
      if r.start < r.end && |k| < MAX_RESV then k + [r] else k
  }

  lemma FittingAppend(rs: seq<Range>, r: Range)
    ensures Fitting(rs + [r]) == if r.start < r.end && |Fitting(rs)| < MAX_RESV then Fitting(rs) + [r] else Fitting(rs)
  {
    assert (rs + [r])[..|rs|] == rs;
  }

  /** The table covers exactly the pages of the ranges that found room. */
  ghost predicate Covers(table: ReservedTable, rs: seq<Range>)
    reads table
  {
    && table.Valid() && |table.ranges| == |Fitting(rs)|
    && forall a: nat :: InUnion(table.ranges, a) <==> InPagesOf(Fitting(rs), a)
  }

  method ReserveNext(table: ReservedTable, r: Range, ghost rs: seq<Range>)
    requires Covers(table, rs) && r.start <= r.end && r.end + 0xFFF < WORD
    modifies table
    ensures Covers(table, rs + [r])
  {
    hide PageFloor, PageCeil, InUnion, InPagesOf, Fitting;
    PagesAppend(Fitting(rs), r);
    FittingAppend(rs, r);
    var _ := table.ReserveRange(r.start, r.end - r.start);
  }

  lemma PagesAppend(rs: seq<Range>, r: Range)
    ensures forall a: nat :: InPagesOf(rs + [r], a) <==>
              InPagesOf(rs, a) || (r.start < r.end && PageFloor(r.start) <= a < PageCeil(r.end))
  {
    hide PageFloor, PageCeil;
    var more := rs + [r];
    forall a: nat
      ensures InPagesOf(more, a) <==> InPagesOf(rs, a) || (r.start < r.end && PageFloor(r.start) <= a < PageCeil(r.end))
    {
      if InPagesOf(rs, a) {
        var i :| 0 <= i < |rs| && rs[i].start < rs[i].end && PageFloor(rs[i].start) <= a < PageCeil(rs[i].end);
        assert more[i] == rs[i];
      }
      if r.start < r.end && PageFloor(r.start) <= a < PageCeil(r.end) {
        assert more[|rs|] == r;
      }
    }
  }

  /** `reserved::init`: afterwards an address is reserved exactly if one of the first MAX_RESV non-empty boot-time
      ranges has a page over it. */
  method InitReserved(boot: BootInfo) returns (table: ReservedTable)
    requires forall i :: 0 <= i < |boot.memoryMap| ==> boot.memoryMap[i].physStart + boot.memoryMap[i].len + 0xFFF < WORD
    requires boot.fbAddr + boot.fbPitch * boot.fbHeight + 0xFFF < WORD && boot.kernelPhys + boot.kernelSize + 0xFFF < WORD
    requires boot.low32Paddr + 0xFFF < WORD && boot.earlyPaddr + boot.earlyLen + 0x10_0FFF < WORD
    ensures fresh(table) && Covers(table, ToReserve(boot))
  {
    hide InUnion, InPagesOf, PageFloor, PageCeil, Fitting;
    table := new ReservedTable();
    NothingYet();
    ghost var rs: seq<Range> := [];
    for i := 0 to |boot.memoryMap|
      invariant fresh(table) && rs == RegionRanges(boot, i) && Covers(table, rs)
    {
      var mr := boot.memoryMap[i];
      var low := mr.physStart + mr.len <= boot.low32Paddr || mr.physStart >= boot.low32Paddr + boot.low32Len;
      if mr.typ != 1 && low {
        var r := Range(mr.physStart, mr.physStart + mr.len);
        ReserveNext(table, r, rs);
        rs := rs + [r];
      } else {
        assert RegionRanges(boot, i + 1) == rs;
      }
    }
    if boot.fbAddr != 0 && boot.fbPitch != 0 {
      var r := Range(boot.fbAddr, boot.fbAddr + boot.fbPitch * boot.fbHeight);
      ReserveNext(table, r, rs);
      rs := rs + [r];
    }
    ghost var before := rs;
    ReserveFixed(table, boot, rs);
    assert before + FixedRanges(boot) == ToReserve(boot);
  }

  /** The reservations that do not depend on the memory map. */
  method ReserveFixed(table: ReservedTable, boot: BootInfo, ghost rs: seq<Range>)
    requires Covers(table, rs)
    requires boot.kernelPhys + boot.kernelSize + 0xFFF < WORD
    requires boot.low32Paddr + 0xFFF < WORD && boot.earlyPaddr + boot.earlyLen + 0x10_0FFF < WORD
    modifies table
    ensures Covers(table, rs + FixedRanges(boot))
  {
    hide Covers;
    var heapEnd := boot.earlyPaddr + boot.earlyLen;
    ghost var done := rs;
    ReserveNext(table, Range(0, boot.low32Paddr), done);
    done := done + [Range(0, boot.low32Paddr)];
    ReserveNext(table, Range(heapEnd, heapEnd + 0x10_0000), done);
    done := done + [Range(heapEnd, heapEnd + 0x10_0000)];
    ReserveNext(table, Range(0x8000, 0x9000), done);
    done := done + [Range(0x8000, 0x9000)];
    ReserveNext(table, Range(0xFEE0_0000, 0xFEE0_1000), done);
    done := done + [Range(0xFEE0_0000, 0xFEE0_1000)];
    ReserveNext(table, Range(0xFEC0_0000, 0xFEC0_1000), done);
    done := done + [Range(0xFEC0_0000, 0xFEC0_1000)];
    ReserveNext(table, Range(boot.kernelPhys, boot.kernelPhys + boot.kernelSize), done);
    done := done + [Range(boot.kernelPhys, boot.kernelPhys + boot.kernelSize)];
    assert done == rs + FixedRanges(boot);
  }

  lemma NothingYet()
    ensures Fitting([]) == [] && forall a: nat :: !InUnion([], a) && !InPagesOf([], a)
  {
  }

  /** No range is lost as long as there are at most MAX_RESV of them. */
  lemma {:induction false} AllFit(rs: seq<Range>)
    requires |rs| <= MAX_RESV
    ensures |Fitting(rs)| <= |rs| && forall a: nat :: InPagesOf(Fitting(rs), a) <==> InPagesOf(rs, a)
  {
    hide PageFloor, PageCeil, InPagesOf;
    if rs != [] {
      var front, r := rs[..|rs| - 1], rs[|rs| - 1];
      AllFit(front);
      PagesAppend(front, r);
      PagesAppend(Fitting(front), r);
      assert front + [r] == rs;
    } else {
      NothingYet();
    }
  }

  /** All that is reserved before the kernel image, which comes last. */
  function BeforeKernel(boot: BootInfo): (rs: seq<Range>)
    ensures ToReserve(boot) == rs + [Range(boot.kernelPhys, boot.kernelPhys + boot.kernelSize)]
  {
    ToReserve(boot)[..|ToReserve(boot)| - 1]
  }

  /** The kernel's own pages end up reserved if and only if the table still has room when their turn comes, or
      earlier ranges already cover them. */
  lemma KernelReservedIffRoom(boot: BootInfo)
    requires boot.kernelSize > 0
    ensures (forall a: nat :: PageFloor(boot.kernelPhys) <= a < PageCeil(boot.kernelPhys + boot.kernelSize)
                              ==> InPagesOf(Fitting(ToReserve(boot)), a))
            <==> (|Fitting(BeforeKernel(boot))| < MAX_RESV
                  || forall a: nat :: PageFloor(boot.kernelPhys) <= a < PageCeil(boot.kernelPhys + boot.kernelSize)
                                      ==> InPagesOf(Fitting(BeforeKernel(boot)), a))
  {
    hide PageFloor, PageCeil, InPagesOf, Fitting, ToReserve, BeforeKernel;
    var kernel := Range(boot.kernelPhys, boot.kernelPhys + boot.kernelSize);
    FittingAppend(BeforeKernel(boot), kernel);
    PagesAppend(Fitting(BeforeKernel(boot)), kernel);
  }

  /** A frame that is not reserved has no byte in a page of the boot-time ranges. */
  lemma FramesAvoidReservations(resv: seq<Range>, rs: seq<Range>, f: nat, a: nat)
    requires forall i :: 0 <= i < |resv| ==> resv[i].start < resv[i].end
    requires forall b: nat :: InUnion(resv, b) <==> InPagesOf(rs, b)
    requires !Reserved(resv, f) && f <= a < f + PAGE
    ensures !InPagesOf(rs, a)
  {
    OverlapIsIntersection(resv, f, f + PAGE);
  }

  /* ------------------------------ Bump allocation ------------------------------ */

  /** Page p is still to come from a bump allocator: past its cursor, whole, and not reserved. */
  predicate BumpFree(next: nat, end: nat, resv: seq<Range>, p: nat) {
    IsPage(p) && next <= p && p + PAGE <= end && !Reserved(resv, p)
  }

  class TinyBump {
    var next: nat
    var end: nat

    constructor (start: nat, end: nat)
      ensures next == start && this.end == end
    {
      next, this.end := start, end;
    }

    /** Takes the lowest free page; fails only when there is none. */
    method AllocateFrame(table: ReservedTable) returns (r: Option<nat>)
      requires table.Valid() && IsPage(next) && end <= PHYS_LIMIT
      modifies this`next
      ensures IsPage(next) && old(next) <= next
      ensures r == None <==> forall p: nat :: !BumpFree(old(next), end, table.ranges, p)
      ensures r.Some? ==> BumpFree(old(next), end, table.ranges, r.value)
      ensures r.Some? ==> forall p: nat :: BumpFree(old(next), end, table.ranges, p) ==> r.value <= p
      ensures forall p: nat :: BumpFree(next, end, table.ranges, p) <==>
                BumpFree(old(next), end, table.ranges, p) && r != Some(p)
    {
      hide PageFloor, PageCeil, Reserved, InUnion;
      while next + 0x1000 <= end
        invariant IsPage(next) && old(next) <= next
        invariant forall p: nat :: BumpFree(next, end, table.ranges, p) <==> BumpFree(old(next), end, table.ranges, p)
        decreases end - next
      {
        var cand := next;
        next := next + 0x1000;
        PageSteps(cand);
        var skip := table.IsReservedRange(cand, 0x1000);
        if !skip {
          assert BumpFree(cand, end, table.ranges, cand);
          return Some(cand);
        }
      }
      r := None;
    }
  }

  lemma PageSteps(x: nat)
    requires IsPage(x)
    ensures IsPage(x + PAGE)
    ensures forall p: nat :: IsPage(p) ==> (x <= p <==> p == x || x + PAGE <= p)
  {
  }

  /* ------------------------------ Usable ranges ------------------------------ */

  /** Page p is still to come from the usable ranges. */
  ghost predicate ListFree(ranges: seq<Range>, resv: seq<Range>, p: nat) {
    IsPage(p) && !Reserved(resv, p) && exists i :: 0 <= i < |ranges| && PageIn(ranges[i], p)
  }

  /** Page-aligned, non-empty ranges that share no page, few enough for the list. */
  ghost predicate RangesOk(ranges: seq<Range>) { |ranges| <= MAX_USABLE && AllApart(ranges) }

  ghost predicate AllApart(ranges: seq<Range>) {
    && (forall i :: 0 <= i < |ranges| ==>
          IsPage(ranges[i].start) && IsPage(ranges[i].end) && ranges[i].start < ranges[i].end <= PHYS_LIMIT)
    && (forall i, j :: 0 <= i < j < |ranges| ==>
          ranges[i].end <= ranges[j].start || ranges[j].end <= ranges[i].start)
  }

  class UsableList {
    var ranges: seq<Range>

    constructor ()
      ensures ranges == []
    {
      ranges := [];
    }

    /** Takes one frame out of the set of free pages; fails only when that set is empty. */
    method TakeFrame(table: ReservedTable) returns (r: Option<nat>)
      requires table.Valid() && RangesOk(ranges)
      modifies this
      ensures RangesOk(ranges)
      ensures r == None <==> forall p: nat :: !ListFree(old(ranges), table.ranges, p)
      ensures r.Some? ==> ListFree(old(ranges), table.ranges, r.value)
      ensures forall p: nat :: ListFree(ranges, table.ranges, p) <==>
                ListFree(old(ranges), table.ranges, p) && r != Some(p)
    {
      hide PageFloor, PageCeil, Reserved, InUnion, ListFree, BumpFree, PageIn;
      while ranges != []
        invariant RangesOk(ranges)
        invariant forall p: nat :: ListFree(ranges, table.ranges, p) <==> ListFree(old(ranges), table.ranges, p)
        decreases |ranges|
      {
        ghost var was := ranges;
        var last := ranges[|ranges| - 1];
        ranges := ranges[..|ranges| - 1];
        LastRange(was, table.ranges);
        var found, s := ScanRange(last.start, last.end, table);
        if found.Some? {
          if s < last.end {
            ranges := ranges + [Range(s, last.end)];
            Shortened(was, s);
            LastRange(ranges, table.ranges);
          } else {
            NoPageLeft(s, last.end, table.ranges);
          }
          return found;
        }
      }
      EmptyList(table.ranges);
      r := None;
    }

    /** The inner loop: the first page of [s, e) that is not reserved, and where the rest of the range starts. */
    method ScanRange(s: nat, e: nat, table: ReservedTable) returns (found: Option<nat>, rest: nat)
      requires table.Valid() && IsPage(s) && s <= e <= PHYS_LIMIT
      ensures found == None <==> forall p: nat :: !BumpFree(s, e, table.ranges, p)
      ensures found.Some? ==> BumpFree(s, e, table.ranges, found.value) && rest == found.value + PAGE
      ensures IsPage(rest) && s <= rest
      ensures forall p: nat :: BumpFree(rest, e, table.ranges, p) <==>
                BumpFree(s, e, table.ranges, p) && found != Some(p)
    {
      hide PageFloor, PageCeil, Reserved, InUnion;
      rest := s;
      while rest + 0x1000 <= e
        invariant IsPage(rest) && s <= rest <= e
        invariant forall p: nat :: BumpFree(rest, e, table.ranges, p) <==> BumpFree(s, e, table.ranges, p)
        decreases e - rest
      {
        var cand := rest;
        rest := rest + 0x1000;
        PageSteps(cand);
        var skip := table.IsReservedRange(cand, 0x1000);
        if !skip {
          assert BumpFree(cand, e, table.ranges, cand);
          return Some(cand), rest;
        }
      }
      found := None;
    }
  }

  /** The free pages of a list are those of its last range and those of the rest, and no page is in both. */
  lemma LastRange(ranges: seq<Range>, resv: seq<Range>)
    requires ranges != [] && RangesOk(ranges)
    ensures var rest, last := ranges[..|ranges| - 1], ranges[|ranges| - 1];
            && RangesOk(rest)
            && forall p: nat :: && (ListFree(ranges, resv, p) <==> ListFree(rest, resv, p) || BumpFree(last.start, last.end, resv, p))
                                && !(ListFree(rest, resv, p) && BumpFree(last.start, last.end, resv, p))
  {
    hide Reserved;
    var rest, last := ranges[..|ranges| - 1], ranges[|ranges| - 1];
    forall p: nat
      ensures ListFree(ranges, resv, p) <==> ListFree(rest, resv, p) || BumpFree(last.start, last.end, resv, p)
      ensures !(ListFree(rest, resv, p) && BumpFree(last.start, last.end, resv, p))
    {
      if ListFree(rest, resv, p) {
        var i :| 0 <= i < |rest| && PageIn(rest[i], p);
        assert PageIn(ranges[i], p);
      }
      if BumpFree(last.start, last.end, resv, p) {
        assert PageIn(ranges[|ranges| - 1], p);
      }
      if ListFree(ranges, resv, p) {
        var i :| 0 <= i < |ranges| && PageIn(ranges[i], p);
        assert i < |rest| ==> PageIn(rest[i], p);
      }
    }
  }

  lemma Shortened(was: seq<Range>, s: nat)
    requires was != [] && RangesOk(was) && IsPage(s) && was[|was| - 1].start <= s < was[|was| - 1].end
    ensures RangesOk(was[..|was| - 1] + [Range(s, was[|was| - 1].end)])
    ensures var now := was[..|was| - 1] + [Range(s, was[|was| - 1].end)];
            now[..|now| - 1] == was[..|was| - 1] && now[|now| - 1] == Range(s, was[|was| - 1].end)
  {
  }

  lemma NoPageLeft(s: nat, e: nat, resv: seq<Range>)
    requires s >= e
    ensures forall p: nat :: !BumpFree(s, e, resv, p)
  {
  }

  lemma EmptyList(resv: seq<Range>)
    ensures forall p: nat :: !ListFree([], resv, p)
  {
  }

  /* ------------------------------ Seeding ------------------------------ */

  datatype MemoryRegion = MemoryRegion(physStart: nat, len: nat, typ: nat)

  /** The whole pages of a region of usable memory. */
  function Clip(mr: MemoryRegion): Range { Range(PageCeil(mr.physStart), PageFloor(mr.physStart + mr.len)) }

  predicate Kept(mr: MemoryRegion) { mr.typ == 1 && Clip(mr).start < Clip(mr).end }

  /** The ranges of the first n regions of the memory map, in order. */
  function Clipped(mm: seq<MemoryRegion>, n: nat): seq<Range>
    requires n <= |mm|
  {
    if n == 0 then []
    else Clipped(mm, n - 1) + (if Kept(mm[n - 1]) then [Clip(mm[n - 1])] else [])
  }

  function Capped(ranges: seq<Range>): seq<Range> { if |ranges| <= MAX_USABLE then ranges else ranges[..MAX_USABLE] }

  /** `seed_usable_from_mmap`; what does not fit into the list is dropped without notice. */
  method SeedUsable(list: UsableList, mm: seq<MemoryRegion>)
    requires forall i :: 0 <= i < |mm| ==> mm[i].physStart + mm[i].len + 0xFFF < WORD
    modifies list
    ensures list.ranges == Capped(Clipped(mm, |mm|))
  {
    hide PageFloor, PageCeil, And;
    list.ranges := [];
    for i := 0 to |mm|
      invariant list.ranges == Capped(Clipped(mm, i))
    {
      var mr := mm[i];
      if mr.typ == 1 {
        ClipBits(mr);
        var s := And(mr.physStart + 0xFFF, Not64(0xFFF));
        var e := And(mr.physStart + mr.len, Not64(0xFFF));
        if e > s && |list.ranges| < MAX_USABLE {
          list.ranges := list.ranges + [Range(s, e)];
        }
      }
    }
  }

  lemma ClipBits(mr: MemoryRegion)
    requires mr.physStart + mr.len + 0xFFF < WORD
    ensures And(mr.physStart + 0xFFF, Not64(0xFFF)) == Clip(mr).start
    ensures And(mr.physStart + mr.len, Not64(0xFFF)) == Clip(mr).end
  {
    hide And;
    PageRounding(mr.physStart);
    PageRounding(mr.physStart + mr.len);
  }

  /** Page p lies in a usable region of the memory map. */
  ghost predicate InMap(mm: seq<MemoryRegion>, n: nat, p: nat)
    requires n <= |mm|
  {
    exists i :: 0 <= i < n && mm[i].typ == 1 && mm[i].physStart <= p && p + PAGE <= mm[i].physStart + mm[i].len
  }

  lemma ClipHolds(mr: MemoryRegion, p: nat)
    requires IsPage(p)
    ensures PageIn(Clip(mr), p) <==> mr.physStart <= p && p + PAGE <= mr.physStart + mr.len
    ensures PageIn(Clip(mr), p) && mr.typ == 1 ==> Kept(mr)
  {
  }

  /** The seeded list holds exactly the whole pages of the usable regions. */
  lemma {:induction false} SeededPages(mm: seq<MemoryRegion>, n: nat, resv: seq<Range>, p: nat)
    requires n <= |mm|
    ensures ListFree(Clipped(mm, n), resv, p) <==> IsPage(p) && !Reserved(resv, p) && InMap(mm, n, p)
  {
    hide Reserved, PageIn, Clip;
    if n != 0 && IsPage(p) {
      SeededPages(mm, n - 1, resv, p);
      ClipHolds(mm[n - 1], p);
      var rest := Clipped(mm, n - 1);
      if Kept(mm[n - 1]) {
        SplitLast(rest, Clip(mm[n - 1]), resv, p);
      } else {
        assert Clipped(mm, n) == rest;
      }
      var last := mm[n - 1].typ == 1 && mm[n - 1].physStart <= p && p + PAGE <= mm[n - 1].physStart + mm[n - 1].len;
      assert InMap(mm, n, p) <==> InMap(mm, n - 1, p) || last;
    }
  }

  lemma SplitLast(rest: seq<Range>, r: Range, resv: seq<Range>, p: nat)
    ensures ListFree(rest + [r], resv, p) <==> ListFree(rest, resv, p) || (IsPage(p) && !Reserved(resv, p) && PageIn(r, p))
  {
    hide Reserved, PageIn;
    var all := rest + [r];
    if i :| 0 <= i < |rest| && PageIn(rest[i], p) {
      assert PageIn(all[i], p);
    }
    assert PageIn(r, p) ==> PageIn(all[|rest|], p);
  }

  /** The usable regions of a memory map are disjoint stretches of physical memory. */
  ghost predicate MapOk(mm: seq<MemoryRegion>) {
    && (forall i :: 0 <= i < |mm| ==> mm[i].physStart + mm[i].len <= PHYS_LIMIT)
    && (forall i, j :: 0 <= i < j < |mm| && mm[i].typ == mm[j].typ == 1 ==>
          mm[i].physStart + mm[i].len <= mm[j].physStart || mm[j].physStart + mm[j].len <= mm[i].physStart)
  }

  /** Disjoint regions, however many, give a well-formed list. */
  lemma SeededOk(mm: seq<MemoryRegion>, n: nat)
    requires n <= |mm| && MapOk(mm)
    ensures RangesOk(Capped(Clipped(mm, n)))
  {
    hide Clip, Kept, IsPage;
    ClippedApart(mm, n);
  }

  lemma {:induction false} ClippedApart(mm: seq<MemoryRegion>, n: nat)
    requires n <= |mm| && MapOk(mm)
    ensures AllApart(Clipped(mm, n))
    ensures forall r :: r in Clipped(mm, n) ==> exists i :: 0 <= i < n && Kept(mm[i]) && r == Clip(mm[i])
  {
    hide Clip, Kept, IsPage;
    if n != 0 {
      ClippedApart(mm, n - 1);
      var rest, last := Clipped(mm, n - 1), mm[n - 1];
      if Kept(last) {
        ClipOk(last);
        forall k | 0 <= k < |rest|
          ensures rest[k].end <= Clip(last).start || Clip(last).end <= rest[k].start
        {
          assert rest[k] in rest;
          var i :| 0 <= i < n - 1 && Kept(mm[i]) && rest[k] == Clip(mm[i]);
          ClipApart(mm[i], last);
        }
      }
    }
  }

  lemma ClipOk(mr: MemoryRegion)
    requires Kept(mr) && mr.physStart + mr.len <= PHYS_LIMIT
    ensures IsPage(Clip(mr).start) && IsPage(Clip(mr).end) && Clip(mr).start < Clip(mr).end <= PHYS_LIMIT
  {
  }

  lemma ClipApart(a: MemoryRegion, b: MemoryRegion)
    requires Kept(a) && Kept(b)
    requires a.typ == b.typ == 1 ==> a.physStart + a.len <= b.physStart || b.physStart + b.len <= a.physStart
    ensures Clip(a).end <= Clip(b).start || Clip(b).end <= Clip(a).start
  {
  }

  /* ------------------------------ All sources together ------------------------------ */

  predicate Apart(a: Range, b: Range) { a.end <= b.start || b.end <= a.start }

  lemma ApartFree(a: Range, b: Range, us: seq<Range>, resv: seq<Range>)
    requires Apart(a, b) && forall i :: 0 <= i < |us| ==> Apart(a, us[i]) && Apart(b, us[i])
    ensures forall p: nat :: !(BumpFree(a.start, a.end, resv, p) && BumpFree(b.start, b.end, resv, p))
    ensures forall p: nat :: !(BumpFree(a.start, a.end, resv, p) && ListFree(us, resv, p))
    ensures forall p: nat :: !(BumpFree(b.start, b.end, resv, p) && ListFree(us, resv, p))
  {
  }

  lemma FreeIsUnreserved(next: nat, end: nat, us: seq<Range>, resv: seq<Range>, p: nat)
    ensures BumpFree(next, end, resv, p) || ListFree(us, resv, p) ==> IsPage(p) && !Reserved(resv, p)
  {
  }

  class FrameSources {
    const table: ReservedTable
    const early: TinyBump
    const low32: TinyBump
    const usable: UsableList
    const physOffset: nat
    var ram: map<nat, seq<byte>>
    ghost const initial: nat -> bool
    ghost var handed: set<nat>

    /** Page p can still be handed out by the early heap and what backs it. */
    ghost predicate GuardFree(p: nat)
      reads this, table, early, usable
    {
      BumpFree(early.next, early.end, table.ranges, p) || ListFree(usable.ranges, table.ranges, p)
    }

    /** No frame is left. */
    ghost predicate Exhausted()
      reads this, table, early, usable
    {
      forall p: nat :: !GuardFree(p)
    }

    ghost predicate LowFree(p: nat)
      reads this, table, low32
    {
      BumpFree(low32.next, low32.end, table.ranges, p)
    }

    /** The pages that were free at the start are, at any time, split between the sources and the pages handed out. */
    ghost predicate Valid()
      reads this, table, early, low32, usable
    {
      && table.Valid() && RangesOk(usable.ranges) && early != low32
      && IsPage(early.next) && early.end <= PHYS_LIMIT && IsPage(low32.next) && low32.end <= PHYS_LIMIT
      && (forall p: nat :: !(BumpFree(early.next, early.end, table.ranges, p) && ListFree(usable.ranges, table.ranges, p)))
      && (forall p: nat :: !(GuardFree(p) && LowFree(p)))
      && (forall p: nat :: GuardFree(p) || LowFree(p) ==> p !in handed)
      && (forall p: nat :: initial(p) <==> GuardFree(p) || LowFree(p) || p in handed)
    }

    /** The three sources are disjoint stretches of memory. */
    constructor (table: ReservedTable, early: TinyBump, low32: TinyBump, usable: UsableList, physOffset: nat,
                 ram: map<nat, seq<byte>>)
      requires table.Valid() && RangesOk(usable.ranges) && early != low32
      requires IsPage(early.next) && early.end <= PHYS_LIMIT && IsPage(low32.next) && low32.end <= PHYS_LIMIT
      requires Apart(Range(early.next, early.end), Range(low32.next, low32.end))
      requires forall i :: 0 <= i < |usable.ranges| ==>
                 && Apart(Range(early.next, early.end), usable.ranges[i])
                 && Apart(Range(low32.next, low32.end), usable.ranges[i])
      ensures Valid() && handed == {}
      ensures this.table == table && this.early == early && this.low32 == low32 && this.usable == usable
      ensures forall p: nat :: initial(p) <==> GuardFree(p) || LowFree(p)
    {
      this.table, this.early, this.low32, this.usable := table, early, low32, usable;
      this.physOffset, this.ram := physOffset, ram;
      var (en, ee, ln, le) := (early.next, early.end, low32.next, low32.end);
      var (us, rs) := (usable.ranges, table.ranges);
      this.initial := (p: nat) => BumpFree(en, ee, rs, p) || ListFree(us, rs, p) || BumpFree(ln, le, rs, p);
      this.handed := {};
      new;
      ApartFree(Range(en, ee), Range(ln, le), us, rs);
    }

    /** `TinyAllocGuard::allocate_frame`: the early heap first, then the usable ranges. */
    method AllocateFrame() returns (r: Option<nat>)
      requires Valid()
      modifies early, usable, this`handed
      ensures Valid()
      ensures r == None <==> forall p: nat :: !old(GuardFree(p))
      ensures r.Some? ==> old(GuardFree(r.value)) && r.value !in old(handed) && handed == old(handed) + {r.value}
      ensures r.Some? ==> IsPage(r.value) && !Reserved(table.ranges, r.value)
      ensures r == None ==> handed == old(handed) && Exhausted()
    {
      hide BumpFree, ListFree, RangesOk;
      r := early.AllocateFrame(table);
      if r == None {
        r := usable.TakeFrame(table);
      }
      if r.Some? {
        FreeIsUnreserved(old(early.next), early.end, old(usable.ranges), table.ranges, r.value);
        handed := handed + {r.value};
      }
      assert forall p: nat :: initial(p) <==> GuardFree(p) || LowFree(p) || p in handed;
    }

    /** `alloc_one_phys_page_hhdm`: virtual and physical address of a zeroed frame; None stands for the panic when
        there is none. */
    method AllocateLow32() returns (r: Option<(nat, nat)>)
      requires Valid()
      modifies low32, this`handed, this`ram
      ensures Valid()
      ensures r == None <==> forall p: nat :: !old(LowFree(p))
      ensures r.Some? ==> var (va, pa) := r.value;
                          && old(LowFree(pa)) && pa !in old(handed) && handed == old(handed) + {pa}
                          && IsPage(pa) && !Reserved(table.ranges, pa)
                          && va == pa + physOffset && ram == old(ram)[pa := seq(PAGE, _ => 0)]
      ensures r == None ==> handed == old(handed) && ram == old(ram)
    {
      hide BumpFree, ListFree, RangesOk;
      var f := low32.AllocateFrame(table);
      r := None;
      if f.Some? {
        FreeIsUnreserved(old(low32.next), low32.end, [], table.ranges, f.value);
        handed := handed + {f.value};
        ram := ram[f.value := seq(0x1000, _ => 0)];
        r := Some((f.value + physOffset, f.value));
      }
      assert forall p: nat :: initial(p) <==> GuardFree(p) || LowFree(p) || p in handed;
    }

    /** Any run of requests (true for the low pool): no frame is handed out twice, each was free at the start, and none
        has a byte in a page of the recorded ranges. */
    method Serve(requests: seq<bool>, ghost rs: seq<Range>) returns (frames: seq<nat>)
      requires Valid() && handed == {}
      modifies early, usable, low32, this`handed, this`ram
      ensures Valid() && |frames| <= |requests|
      ensures forall i, j :: 0 <= i < j < |frames| ==> frames[i] != frames[j]
      ensures forall i :: 0 <= i < |frames| ==> initial(frames[i])
      ensures Covers(table, rs) ==>
                forall i, a: nat :: 0 <= i < |frames| && frames[i] <= a < frames[i] + PAGE ==> !InPagesOf(Fitting(rs), a)
      ensures forall p: nat :: initial(p) <==> GuardFree(p) || LowFree(p) || p in frames
    {
      hide BumpFree, ListFree, RangesOk, Reserved;
      frames := [];
      for k := 0 to |requests|
        invariant Valid() && |frames| <= k
        invariant forall i :: 0 <= i < |frames| ==> !Reserved(table.ranges, frames[i])
        invariant forall p: nat :: p in handed <==> p in frames
        invariant forall i, j :: 0 <= i < j < |frames| ==> frames[i] != frames[j]
      {
        var r;
        if requests[k] {
          var low := AllocateLow32();
          r := if low.Some? then Some(low.value.1) else None;
        } else {
          r := AllocateFrame();
        }
        if r.Some? {
          frames := frames + [r.value];
        }
      }
      forall i, a: nat | Covers(table, rs) && 0 <= i < |frames| && frames[i] <= a < frames[i] + PAGE
        ensures !InPagesOf(Fitting(rs), a)
      {
        FramesAvoidReservations(table.ranges, Fitting(rs), frames[i], a);
      }
    }
  }
}

/** Loading the kernel image: the PT_LOAD layout and copy loops of the loader's `main`, and what the running kernel
    then reads through its page tables (ELF program loading, System V gABI chapter 5). */
module ElfLoad {

  import opened Wrappers
  import opened Bits
  import opened PageWalk
  import opened PageTables
  import opened Hhdm
  import opened BootMap

  datatype Phdr = Phdr(load: bool, vaddr: nat, memsz: nat, filesz: nat, offset: nat, align: nat)

  /** A header that the two loops do not skip. */
  predicate Loadable(ph: Phdr) { ph.load && ph.memsz != 0 }

  predicate Covers(ph: Phdr, va: nat) { Loadable(ph) && ph.vaddr <= va < ph.vaddr + ph.memsz }

  predicate PowerOfTwo(a: nat) { exists k: nat :: k < 64 && a == Pow2(k) }

  /** The end of the segment, rounded up to a page, does not fit into a word. */
  predicate Wraps(ph: Phdr) { ph.vaddr + ph.memsz + 0xFFF >= WORD }

  /** A well-formed executable: file parts inside the file and no longer than their memory, power-of-two alignments
      (0 means none), and addresses whose page round-up does not wrap. */
  ghost predicate HeadersOk(phs: seq<Phdr>, fileLen: nat) {
    forall i :: 0 <= i < |phs| && Loadable(phs[i]) ==>
      && phs[i].filesz <= phs[i].memsz && phs[i].offset + phs[i].filesz <= fileLen
      && (phs[i].align == 0 || PowerOfTwo(phs[i].align))
      && !Wraps(phs[i])
  }

  datatype Extent = Extent(min: nat, max: nat, align: nat)

  /** Every loadable segment among the first n lies in [min, max) and asks for no more than the alignment, and all
      three are reached, the alignment by a segment or by the page size. */
  ghost predicate ExtentOf(phs: seq<Phdr>, n: nat, x: Extent)
    requires n <= |phs|
  {
    && (forall i :: 0 <= i < n && Loadable(phs[i]) ==>
          x.min <= phs[i].vaddr && phs[i].vaddr + phs[i].memsz <= x.max && phs[i].align <= x.align)
    && (exists i :: 0 <= i < n && Loadable(phs[i]) && phs[i].vaddr == x.min)
    && (exists i :: 0 <= i < n && Loadable(phs[i]) && PageCeil(phs[i].vaddr + phs[i].memsz) == x.max)
    && (x.align == PAGE || exists i :: 0 <= i < n && Loadable(phs[i]) && phs[i].align == x.align)
    && PAGE <= x.align
    && x.max % PAGE == 0 && x.min < x.max < WORD
  }

  /** The bounds after one more loadable header. */
  function Widen(x: Extent, ph: Phdr): Extent {
    Extent(Min(x.min, ph.vaddr), Max(x.max, PageCeil(ph.vaddr + ph.memsz)), Max(x.align, Max(ph.align, 0x1000)))
  }

  const NO_EXTENT: Extent := Extent(WORD - 1, 0, 0)

  lemma WidenExtent(phs: seq<Phdr>, n: nat, x: Extent)
    requires n < |phs| && Loadable(phs[n]) && !Wraps(phs[n])
    requires if forall i :: 0 <= i < n ==> !Loadable(phs[i]) then x == NO_EXTENT else ExtentOf(phs, n, x)
    ensures ExtentOf(phs, n + 1, Widen(x, phs[n]))
  {
    hide PageCeil;
    var ph, w := phs[n], Widen(x, phs[n]);
    RoundedAreAligned(0, ph.vaddr + ph.memsz);
    CeilBelow(ph.vaddr + ph.memsz);
    if forall i :: 0 <= i < n ==> !Loadable(phs[i]) {
      assert w.min == ph.vaddr && w.max == PageCeil(ph.vaddr + ph.memsz);
      assert w.align == PAGE || phs[n].align == w.align;
    } else {
      var a :| 0 <= a < n && Loadable(phs[a]) && phs[a].vaddr == x.min;
      var b :| 0 <= b < n && Loadable(phs[b]) && PageCeil(phs[b].vaddr + phs[b].memsz) == x.max;
      assert w.min == phs[if x.min < ph.vaddr then a else n].vaddr;
      var c := if x.max < PageCeil(ph.vaddr + ph.memsz) then n else b;
      assert w.max == PageCeil(phs[c].vaddr + phs[c].memsz);
      assert w.align == x.align || phs[n].align == w.align;
    }
  }

  lemma CeilBelow(x: nat)
    requires x + 0xFFF < WORD
    ensures PageCeil(x) < WORD
  {
  }

  /** The alignment of a well-formed executable is a power of two. */
  lemma AlignIsPower(phs: seq<Phdr>, fileLen: nat, x: Extent)
    requires HeadersOk(phs, fileLen) && ExtentOf(phs, |phs|, x)
    ensures PowerOfTwo(x.align)
  {
    hide PageCeil;
    Pow2Values();
    assert Pow2(12) == 0x1000;
  }

  /** How the layout loop ends: with the bounds, without a segment, or in the panic of a sum that overflows. */
  datatype Layouted = Found(extent: Extent) | NoSegment | Overflow

  /** The layout loop, on any program headers. */
  method LayoutSegments(phs: seq<Phdr>) returns (r: Layouted)
    ensures r == Overflow <==> exists i :: 0 <= i < |phs| && Loadable(phs[i]) && Wraps(phs[i])
    ensures r == NoSegment <==> forall i :: 0 <= i < |phs| ==> !Loadable(phs[i])
    ensures r.Found? ==> ExtentOf(phs, |phs|, r.extent)
  {
    hide PageCeil, AlignUp;
    var min: nat, max: nat, align: nat := WORD - 1, 0, 0;
    for n := 0 to |phs|
      invariant forall i :: 0 <= i < n && Loadable(phs[i]) ==> !Wraps(phs[i])
      invariant if forall i :: 0 <= i < n ==> !Loadable(phs[i]) then Extent(min, max, align) == NO_EXTENT
                else ExtentOf(phs, n, Extent(min, max, align)) && min < WORD - 1
    {
      var ph := phs[n];
      if Loadable(ph) {
        if ph.vaddr + ph.memsz + 0xFFF >= WORD {
          return Overflow;
        }
        WidenExtent(phs, n, Extent(min, max, align));
        PageRounding(ph.vaddr + ph.memsz);
        min := Min(min, ph.vaddr);
        max := Max(max, AlignUp(ph.vaddr + ph.memsz, 0x1000));
        align := Max(align, Max(ph.align, 0x1000));
      }
    }
    if min == WORD - 1 {
      r := NoSegment;
    } else {
      r := Found(Extent(min, max, align));
    }
  }

  /* ------------------------------ Copying ------------------------------ */

  /** What segment ph puts at va: its file bytes, then zeros. */
  function SegmentByte(file: seq<byte>, ph: Phdr, va: nat): byte
    requires Covers(ph, va) && ph.offset + ph.filesz <= |file|
  {
    if va - ph.vaddr < ph.filesz then file[ph.offset + (va - ph.vaddr)] else 0
  }

  /** The image byte at va once the first n headers are done: the last segment that covers va decides, and a byte
      that no segment covers is zero. */
  function ImageByte(file: seq<byte>, phs: seq<Phdr>, n: nat, va: nat): byte
    requires HeadersOk(phs, |file|) && n <= |phs|
  {
    if n == 0 then 0
    else if Covers(phs[n - 1], va) then SegmentByte(file, phs[n - 1], va)
    else ImageByte(file, phs, n - 1, va)
  }

  /** Fills buf[base..base + (max - min)] with the image and touches nothing else. */
  method CopySegments(file: seq<byte>, phs: seq<Phdr>, x: Extent, buf: array<byte>, base: nat)
    requires HeadersOk(phs, |file|) && ExtentOf(phs, |phs|, x) && base + (x.max - x.min) <= buf.Length
    modifies buf
    ensures forall va :: x.min <= va < x.max ==> buf[base + (va - x.min)] == ImageByte(file, phs, |phs|, va)
    ensures forall k :: 0 <= k < buf.Length && !(base <= k < base + (x.max - x.min)) ==> buf[k] == old(buf[k])
  {
    var total := x.max - x.min;
    forall k | base <= k < base + total {
      buf[k] := 0;
    }
    for n := 0 to |phs|
      invariant forall va :: x.min <= va < x.max ==> buf[base + (va - x.min)] == ImageByte(file, phs, n, va)
      invariant forall k :: 0 <= k < buf.Length && !(base <= k < base + total) ==> buf[k] == old(buf[k])
    {
      var ph := phs[n];
      if Loadable(ph) {
        CopySegment(file, ph, buf, base + (ph.vaddr - x.min));
        ghost var done := n + 1;
        forall va | x.min <= va < x.max
          ensures ImageByte(file, phs, done, va) == buf[base + (va - x.min)]
        {
          if !Covers(ph, va) {
            assert ImageByte(file, phs, done, va) == ImageByte(file, phs, n, va);
          }
        }
      }
    }
  }

  /** One segment: `copy_nonoverlapping` of the file part, `write_bytes` of zeros over the rest. */
  method CopySegment(file: seq<byte>, ph: Phdr, buf: array<byte>, dst: nat)
    requires ph.filesz <= ph.memsz && ph.offset + ph.filesz <= |file| && dst + ph.memsz <= buf.Length
    modifies buf
    ensures forall k :: 0 <= k < buf.Length ==>
              buf[k] == if dst <= k < dst + ph.filesz then file[ph.offset + (k - dst)]
                        else if dst + ph.filesz <= k < dst + ph.memsz then 0
                        else old(buf[k])
  {
    if ph.filesz > 0 {
      forall k | dst <= k < dst + ph.filesz {
        buf[k] := file[ph.offset + (k - dst)];
      }
    }
    if ph.memsz > ph.filesz {
      forall k | dst + ph.filesz <= k < dst + ph.memsz {
        buf[k] := 0;
      }
    }
  }

  ghost predicate Disjoint(phs: seq<Phdr>) {
    forall i, j, va :: 0 <= i < j < |phs| && Covers(phs[i], va) ==> !Covers(phs[j], va)
  }

  /** With disjoint segments every byte of every segment survives. */
  lemma {:induction false} SegmentSurvives(file: seq<byte>, phs: seq<Phdr>, n: nat, i: nat, va: nat)
    requires HeadersOk(phs, |file|) && Disjoint(phs) && i < n <= |phs| && Covers(phs[i], va)
    ensures ImageByte(file, phs, n, va) == SegmentByte(file, phs[i], va)
  {
    if i < n - 1 {
      SegmentSurvives(file, phs, n - 1, i, va);
    }
  }

  /* ------------------------------ Placement ------------------------------ */

  function ReservedPages(x: Extent): nat
    requires x.min <= x.max
  {
    (x.max - x.min + x.align + 0x1000 + 0xFFF) / 0x1000
  }

  /** The image, placed at the alignment it asks for, stays inside the pages reserved for it. */
  lemma PlacementFits(x: Extent, rawBase: nat)
    requires x.min <= x.max && PAGE <= x.align && PowerOfTwo(x.align)
    requires rawBase + ReservedPages(x) * PAGE <= PHYS_LIMIT
    ensures x.align < WORD
    ensures var loadBase := AlignUp(rawBase, x.align);
            && loadBase % PAGE == 0 && loadBase % x.align == 0
            && rawBase <= loadBase && loadBase + (x.max - x.min) <= rawBase + ReservedPages(x) * PAGE
  {
    hide AlignUp;
    var k: nat :| k < 64 && x.align == Pow2(k);
    assert x.align <= ReservedPages(x) * PAGE;
    AlignUpIsCeil(rawBase, k);
    PageMultiple(AlignUp(rawBase, x.align), k);
  }

  lemma PageMultiple(y: nat, k: nat)
    requires PAGE <= Pow2(k) && y % Pow2(k) == 0
    ensures y % PAGE == 0
  {
    Pow2Values();
    if k < 12 {
      Pow2Less(k, 12);
    } else {
      Pow2Add(12, k - 12);
      Multiple(y, 0x1000, Pow2(k - 12));
    }
  }

  lemma Multiple(y: nat, a: nat, m: nat)
    requires a > 0 && m > 0 && a * m > 0 && y % (a * m) == 0
    ensures y % a == 0
  {
    var q := y / (a * m);
    assert y == a * m * q == a * (m * q);
    DivModUnique(y, a, m * q, 0);
  }

  /* ------------------------------ End to end ------------------------------ */

  /** A byte as the running kernel sees it: the translated address, looked up in the image pages. */
  function ReadVa(mem: Memory, root: nat, rawBase: nat, image: seq<byte>, va: nat): Option<byte> {
    match Translate(mem, root, va)
    case Mapped(pa, _) => if rawBase <= pa < rawBase + |image| then Some(image[pa - rawBase]) else None
    case Unmapped => None
  }

  /** The image lies at the given offset of the allocated pages. */
  ghost predicate ImagePlaced(image: seq<byte>, base: int, file: seq<byte>, phs: seq<Phdr>, x: Extent)
    requires HeadersOk(phs, |file|)
  {
    && 0 <= base && base + (x.max - x.min) <= |image|
    && forall va :: x.min <= va < x.max ==> image[base + (va - x.min)] == ImageByte(file, phs, |phs|, va)
  }

  /** The rest of `main`: reserve, place, copy, map. `answers` are the pages the firmware hands out for tables. */
  method LoadKernel(file: seq<byte>, phs: seq<Phdr>, x: Extent, rawBase: nat, answers: seq<nat>,
                    identBytes: nat, physMax: nat, ghost y: Layout) returns (r: Result<nat>, t: Tables?, image: array<byte>)
    requires HeadersOk(phs, |file|) && ExtentOf(phs, |phs|, x)
    requires rawBase + ReservedPages(x) * PAGE <= PHYS_LIMIT
    requires PoolOk(map[], answers)
    requires x.max <= VA_LIMIT / 2 && PageCeil(identBytes) <= VA_LIMIT / 2 && PageCeil(physMax) <= HHDM_MAX
    requires x.align < WORD && y == Layout(AlignUp(rawBase, x.align), x.min, x.max, PageCeil(identBytes), PageCeil(physMax))
    ensures r.Ok? <==> |answers| >= |TablesFor(y)|
    ensures answers != [] ==> t != null && fresh(t) && t.Valid() && t.root == answers[0] && t.budget == |answers|
    ensures r.Err? ==> answers == [] || (t != null && OutOfPages(t, y))
    ensures fresh(image) && image.Length == ReservedPages(x) * PAGE
    ensures ImagePlaced(image[..], y.loadBase - rawBase, file, phs, x)
    ensures r.Ok? ==> t != null && t.Valid()
    ensures t != null ==> forall v :: 0 <= v < VA_LIMIT && t.View(v).Mapped? ==> t.Access(v) == KERNEL
    ensures r.Ok? && x.min % PAGE == 0 ==>
              forall va :: x.min <= va < x.max ==>
                ReadVa(t.mem, t.root, rawBase, image[..], va) == Some(ImageByte(file, phs, |phs|, va))
    ensures r.Ok? && x.min % PAGE == 0 && Disjoint(phs) ==>
              forall i, va :: 0 <= i < |phs| && Covers(phs[i], va) ==>
                ReadVa(t.mem, t.root, rawBase, image[..], va) == Some(SegmentByte(file, phs[i], va))
  {
    hide AlignUp, PageCeil, Walk, Tree, PoolOk, Budget, BootView, PowerOfTwo, ReservedPages, IntendedTranslation;
    hide TablesFor, OutOfPages, RightsFrom;
    AlignIsPower(phs, |file|, x);
    var pages := ReservedPages(x);
    image := new byte[pages * 0x1000];
    PlacementFits(x, rawBase);
    var loadBase := AlignUp(rawBase, x.align);
    CopySegments(file, phs, x, image, loadBase - rawBase);
    RoundedAreAligned(0, identBytes);
    RoundedAreAligned(0, physMax);
    r, t := BuildPagetablesExec(answers, loadBase, x.min, x.max, identBytes, physMax, y);
    if r.Ok? && x.min % PAGE == 0 {
      forall va | x.min <= va < x.max
        ensures ReadVa(t.mem, t.root, rawBase, image[..], va) == Some(ImageByte(file, phs, |phs|, va))
      {
        TranslateAsIntended(t.mem, t.root, y, va);
        KernelTranslation(y, va);
      }
      if Disjoint(phs) {
        forall i, va | 0 <= i < |phs| && Covers(phs[i], va)
          ensures ReadVa(t.mem, t.root, rawBase, image[..], va) == Some(SegmentByte(file, phs[i], va))
        {
          SegmentSurvives(file, phs, |phs|, i, va);
        }
      }
    }
  }

  lemma KernelTranslation(y: Layout, va: nat)
    requires y.minVaddr <= va < y.maxVaddr
    ensures IntendedTranslation(y, va) == Mapped(va - y.minVaddr + y.loadBase, 0)
  {
  }
}

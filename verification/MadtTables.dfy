/** Which tables the searches accept, where they look for them, and what they make of them: stated for memory that holds
    given tables byte by byte, in plain arithmetic (sections 5.2.6 to 5.2.8 and 5.2.12 of the ACPI Specification). */
module MadtTables {

  import opened Wrappers
  import opened Bits
  import opened LittleEndian
  import opened Madt

  /** Memory holds these bytes at that address. */
  ghost predicate Holds(mem: Phys, at: nat, bs: seq<byte>) {
    forall i :: 0 <= i < |bs| ==> mem(at + i) == bs[i]
  }

  lemma HeldSlice(mem: Phys, at: nat, bs: seq<byte>, i: nat, n: nat)
    requires Holds(mem, at, bs) && i + n <= |bs|
    ensures Slice(mem, at + i, n) == bs[i..i + n]
  {
    var s := Slice(mem, at + i, n);
    forall k | 0 <= k < n
      ensures s[k] == bs[i..i + n][k]
    {
      assert mem(at + (i + k)) == bs[i + k];
    }
  }

  /* ------------------------------ Valid tables ------------------------------ */

  /** The length that a table states: bytes 4 to 7, lowest first. */
  function Stated(bs: seq<byte>): nat
    requires |bs| >= 8
  {
    bs[4] as int + 0x100 * (bs[5] as int) + 0x1_0000 * (bs[6] as int) + 0x100_0000 * (bs[7] as int)
  }

  /** A table with a whole header that states its own length. */
  predicate Complete(bs: seq<byte>) { |bs| >= 36 && Stated(bs) == |bs| }

  /** All bytes of the table sum to zero modulo 256. */
  predicate Balanced(bs: seq<byte>) { Total(bs) % 0x100 == 0 }

  /** A complete table is valid if and only if all its bytes sum to zero; it then has its first four bytes for a
      signature, and its own length. */
  lemma ValidIffBalanced(mem: Phys, at: nat, bs: seq<byte>)
    requires Holds(mem, at, bs) && Complete(bs)
    ensures SdtValid(mem, at) == if Balanced(bs) then Some(Sdt(bs[..4], |bs|)) else None
  {
    hide Slice, Sum, Total;
    HeldSlice(mem, at, bs, 4, 4);
    HeldSlice(mem, at, bs, 0, |bs|);
    HeldSlice(mem, at, bs, 0, 4);
    FourBytes(bs[4..8]);
    SumIsTotal(bs);
    assert bs[0..|bs|] == bs;
  }

  /** A table that states less than a header is not valid. */
  lemma TooShort(mem: Phys, at: nat, bs: seq<byte>)
    requires Holds(mem, at, bs) && |bs| >= 8 && Stated(bs) < 36
    ensures SdtValid(mem, at) == None
  {
    hide Slice, Sum;
    HeldSlice(mem, at, bs, 4, 4);
    FourBytes(bs[4..8]);
  }

  /** One wrong byte outside the length field makes a valid table invalid. */
  lemma OneByteOff(mem: Phys, at: nat, bs: seq<byte>, k: nat, b: byte)
    requires Complete(bs) && Balanced(bs) && k < |bs| && !(4 <= k < 8) && b != bs[k]
    requires Holds(mem, at, bs[k := b])
    ensures SdtValid(mem, at) == None
  {
    hide Total;
    ChangedByte(bs, k, b);
    ValidIffBalanced(mem, at, bs[k := b]);
  }

  /* ------------------------------ Root tables ------------------------------ */

  function PointerBytes(ptrs: seq<nat>, width: nat): (bs: seq<byte>)
    ensures |bs| == width * |ptrs|
  {
    if ptrs == [] then [] else PointerBytes(ptrs[..|ptrs| - 1], width) + LeBytes(ptrs[|ptrs| - 1], width)
  }

  lemma {:induction false} PointerBytesAt(ptrs: seq<nat>, width: nat, i: nat, at: nat)
    requires i < |ptrs| && at == width * i
    ensures at + width <= |PointerBytes(ptrs, width)|
    ensures PointerBytes(ptrs, width)[at..at + width] == LeBytes(ptrs[i], width)
  {
    hide LeBytes;
    var m := |ptrs| - 1;
    var front := PointerBytes(ptrs[..m], width);
    if i < m {
      PointerBytesAt(ptrs[..m], width, i, at);
      assert (front + LeBytes(ptrs[m], width))[at..at + width] == front[at..at + width];
    } else {
      LastSlice(front, LeBytes(ptrs[m], width));
    }
  }

  lemma LastSlice(a: seq<byte>, b: seq<byte>)
    ensures (a + b)[|a|..|a| + |b|] == b
  {
  }

  /** At `root` there is a valid root table: a header of 36 bytes, and then the pointers, in order. */
  ghost predicate RootTable(mem: Phys, root: nat, width: nat, header: seq<byte>, ptrs: seq<nat>) {
    var bs := header + PointerBytes(ptrs, width);
    && root != 0 && |header| == 36 && Complete(bs) && Balanced(bs) && Holds(mem, root, bs)
    && forall i :: 0 <= i < |ptrs| ==> ptrs[i] < Pow2(8 * width)
  }

  /** The pointers are found where they are. */
  lemma PointersFound(mem: Phys, root: nat, width: nat, header: seq<byte>, ptrs: seq<nat>, i: nat)
    requires (width == 4 || width == 8) && RootTable(mem, root, width, header, ptrs) && i < |ptrs|
    ensures Pointer(mem, root, width, i) == ptrs[i]
  {
    var bs := header + PointerBytes(ptrs, width);
    var at := width * i;
    hide Complete, Balanced, Holds, PointerBytes, Slice, LeBytes, FromLe, Pow2;
    PointerBytesAt(ptrs, width, i, at);
    HeldSlice(mem, root, bs, 36 + at, width);
    Behind(header, PointerBytes(ptrs, width), at, width);
    LeBack(ptrs[i], width);
  }

  lemma Behind(a: seq<byte>, b: seq<byte>, at: nat, n: nat)
    requires at + n <= |b|
    ensures (a + b)[|a| + at..|a| + at + n] == b[at..at + n]
  {
  }

  lemma LeBack(v: nat, n: nat)
    requires v < Pow2(8 * n)
    ensures FromLe(LeBytes(v, n)) == v
  {
    hide LeBytes, FromLe, Pow2;
    LeRoundTrip(v, n);
    DivModUnique(v, Pow2(8 * n), 0, v);
  }

  lemma RootFound(mem: Phys, root: nat, width: nat, header: seq<byte>, ptrs: seq<nat>)
    requires (width == 4 || width == 8) && RootTable(mem, root, width, header, ptrs)
    ensures SdtValid(mem, root).Some? && SdtValid(mem, root).value.length >= SDT_HEADER
    ensures PointerCount(SdtValid(mem, root).value, width) == |ptrs|
  {
    var bs := header + PointerBytes(ptrs, width);
    hide Holds, Balanced, SdtValid;
    ValidIffBalanced(mem, root, bs);
    assert |bs| == 36 + width * |ptrs|;
    DivModUnique(width * |ptrs|, width, |ptrs|, 0);
  }

  /** Where the pointers lead: complete tables, valid or not. */
  ghost predicate PointsTo(mem: Phys, ptrs: seq<nat>, ts: seq<seq<byte>>) {
    |ts| == |ptrs| && forall i :: 0 <= i < |ts| ==> Complete(ts[i]) && Holds(mem, ptrs[i], ts[i])
  }

  /** A valid table with the signature "APIC". */
  predicate IsApic(bs: seq<byte>) {
    && |bs| >= 4 && Balanced(bs)
    && bs[0] == 'A' as int && bs[1] == 'P' as int && bs[2] == 'I' as int && bs[3] == 'C' as int
  }

  lemma ApicIff(mem: Phys, at: nat, bs: seq<byte>)
    requires Holds(mem, at, bs) && Complete(bs)
    ensures IsTable(mem, at, APIC) <==> IsApic(bs)
    ensures IsApic(bs) ==> SdtValid(mem, at).value.length == |bs|
  {
    hide Holds, Balanced, SdtValid;
    ValidIffBalanced(mem, at, bs);
    assert bs[..4] == [bs[0], bs[1], bs[2], bs[3]];
  }

  lemma {:induction false} FirstApic(mem: Phys, root: nat, width: nat, ptrs: seq<nat>, ts: seq<seq<byte>>, i: nat, k: nat)
    requires PointsTo(mem, ptrs, ts) && i <= k <= |ptrs|
    requires forall j :: 0 <= j < |ptrs| ==> Pointer(mem, root, width, j) == ptrs[j]
    requires forall j :: i <= j < k ==> !IsApic(ts[j])
    requires k < |ptrs| ==> IsApic(ts[k])
    ensures FirstFrom(mem, root, width, i, |ptrs|) == if k < |ptrs| then Some((ptrs[k], |ts[k]|)) else None
    decreases k - i
  {
    hide Pointer, IsTable, IsApic, Complete, Holds, SdtValid;
    if i < |ptrs| {
      ApicIff(mem, ptrs[i], ts[i]);
      if i < k {
        FirstApic(mem, root, width, ptrs, ts, i + 1, k);
      }
    }
  }

  /** A root table is searched in the order of its pointers, for the first valid table with the signature. */
  lemma SearchOrder(mem: Phys, root: nat, width: nat, header: seq<byte>, ptrs: seq<nat>, ts: seq<seq<byte>>, k: nat)
    requires (width == 4 || width == 8) && RootTable(mem, root, width, header, ptrs) && PointsTo(mem, ptrs, ts)
    requires k <= |ptrs| && (forall j :: 0 <= j < k ==> !IsApic(ts[j])) && (k < |ptrs| ==> IsApic(ts[k]))
    ensures FirstTable(mem, root, width) == if k < |ptrs| then Some((ptrs[k], |ts[k]|)) else None
  {
    RootFound(mem, root, width, header, ptrs);
    forall j | 0 <= j < |ptrs|
      ensures Pointer(mem, root, width, j) == ptrs[j]
    {
      PointersFound(mem, root, width, header, ptrs, j);
    }
    hide Pointer, IsApic, SdtValid, Complete, Holds;
    FirstApic(mem, root, width, ptrs, ts, 0, k);
  }

  /* ------------------------------ End to end ------------------------------ */

  /** The table is a header of 44 bytes, and then well-formed entries. */
  ghost predicate MadtOf(bs: seq<byte>, header: seq<byte>, es: seq<Entry>) {
    |header| == 44 && (forall i :: 0 <= i < |es| ==> EntryOk(es[i])) && bs == header + EncodeAll(es)
  }

  lemma MadtRead(mem: Phys, at: nat, bs: seq<byte>, header: seq<byte>, es: seq<Entry>)
    requires Holds(mem, at, bs) && MadtOf(bs, header, es)
    ensures Walk(Slice(mem, at, |bs|), MADT_HEADER, MadtInfo(HeaderLapic(mem, at), [], [])) == Some(Described(header, es))
  {
    hide Walk, EntryOk, HeaderLapic, Described, Slice, Holds;
    HeldSlice(mem, at, bs, 0, |bs|);
    assert bs[0..|bs|] == bs;
    WholeTable(mem, at, |bs|, header, es);
  }

  /** With an XSDT that leads to an "APIC" table of well-formed entries, after any number of other or damaged tables,
      discovery returns what that table says. */
  lemma DiscoveredThroughXsdt(mem: Phys, xsdt: nat, rsdt: nat, root: seq<byte>, ptrs: seq<nat>, ts: seq<seq<byte>>, k: nat,
                              header: seq<byte>, es: seq<Entry>)
    requires RootTable(mem, xsdt, 8, root, ptrs) && PointsTo(mem, ptrs, ts)
    requires k < |ptrs| && (forall j :: 0 <= j < k ==> !IsApic(ts[j])) && IsApic(ts[k]) && MadtOf(ts[k], header, es)
    ensures DiscoverResult(mem, xsdt, rsdt) == Discovered(Described(header, es))
  {
    SearchOrder(mem, xsdt, 8, root, ptrs, ts, k);
    MadtRead(mem, ptrs[k], ts[k], header, es);
    hide FirstTable, Walk, Described, HeaderLapic, Slice, Holds, Complete, IsApic, MadtOf;
  }

  /** There is no XSDT, or it leads to no valid "APIC" table. */
  ghost predicate NothingInXsdt(mem: Phys, xsdt: nat, root: seq<byte>, ptrs: seq<nat>, ts: seq<seq<byte>>) {
    xsdt == 0 || (RootTable(mem, xsdt, 8, root, ptrs) && PointsTo(mem, ptrs, ts) && forall j :: 0 <= j < |ts| ==> !IsApic(ts[j]))
  }

  lemma XsdtSkipped(mem: Phys, xsdt: nat, root: seq<byte>, ptrs: seq<nat>, ts: seq<seq<byte>>)
    requires NothingInXsdt(mem, xsdt, root, ptrs, ts)
    ensures FirstTable(mem, xsdt, 8) == None
  {
    if xsdt != 0 {
      SearchOrder(mem, xsdt, 8, root, ptrs, ts, |ptrs|);
    }
  }

  /** The same through the RSDT, when there is nothing in the XSDT. */
  lemma DiscoveredThroughRsdt(mem: Phys, xsdt: nat, rsdt: nat, root8: seq<byte>, ptrs8: seq<nat>, ts8: seq<seq<byte>>,
                              root: seq<byte>, ptrs: seq<nat>, ts: seq<seq<byte>>, k: nat, header: seq<byte>, es: seq<Entry>)
    requires NothingInXsdt(mem, xsdt, root8, ptrs8, ts8)
    requires RootTable(mem, rsdt, 4, root, ptrs) && PointsTo(mem, ptrs, ts)
    requires k < |ptrs| && (forall j :: 0 <= j < k ==> !IsApic(ts[j])) && IsApic(ts[k]) && MadtOf(ts[k], header, es)
    ensures DiscoverResult(mem, xsdt, rsdt) == Discovered(Described(header, es))
  {
    XsdtSkipped(mem, xsdt, root8, ptrs8, ts8);
    SearchOrder(mem, rsdt, 4, root, ptrs, ts, k);
    MadtRead(mem, ptrs[k], ts[k], header, es);
    hide FirstTable, Walk, Described, HeaderLapic, Slice, Holds, Complete, IsApic, MadtOf, RootTable;
  }

  /** With no valid "APIC" table in either, nothing is found. */
  lemma NothingDiscovered(mem: Phys, xsdt: nat, rsdt: nat, root8: seq<byte>, ptrs8: seq<nat>, ts8: seq<seq<byte>>,
                          root: seq<byte>, ptrs: seq<nat>, ts: seq<seq<byte>>)
    requires NothingInXsdt(mem, xsdt, root8, ptrs8, ts8)
    requires rsdt == 0 || (RootTable(mem, rsdt, 4, root, ptrs) && PointsTo(mem, ptrs, ts) && forall j :: 0 <= j < |ts| ==> !IsApic(ts[j]))
    ensures DiscoverResult(mem, xsdt, rsdt) == NotFound
  {
    XsdtSkipped(mem, xsdt, root8, ptrs8, ts8);
    if rsdt != 0 {
      SearchOrder(mem, rsdt, 4, root, ptrs, ts, |ptrs|);
    }
  }

  /* ------------------------------ Entries, byte by byte ------------------------------ */

  function Word32(bs: seq<byte>, i: nat): nat
    requires i + 4 <= |bs|
  {
    bs[i] as int + 0x100 * (bs[i + 1] as int) + 0x1_0000 * (bs[i + 2] as int) + 0x100_0000 * (bs[i + 3] as int)
  }

  lemma Le4(bs: seq<byte>, i: nat)
    requires i + 4 <= |bs|
    ensures Le(bs, i, 4) == Word32(bs, i)
  {
    FourBytes(bs[i..i + 4]);
  }

  lemma Le8(bs: seq<byte>, i: nat)
    requires i + 8 <= |bs|
    ensures Le(bs, i, 8) == Word32(bs, i) + 0x1_0000_0000 * Word32(bs, i + 4)
  {
    var w := bs[i..i + 8];
    assert w[..4] == bs[i..i + 4] && w[4..] == bs[i + 4..i + 8];
    EightBytes(w);
    FourBytes(w[..4]);
    FourBytes(w[4..]);
  }

  /** What an entry that lies within the table adds, by its type byte and its length byte: for a processor the id at
      offset 3 and bit 0 of offset 4, for an I/O APIC the words at offsets 2, 4 and 8, for an override the address at
      offset 4, for an x2APIC processor the id at offset 4 and bit 0 of offset 8, and otherwise nothing. */
  lemma EntryBytes(bs: seq<byte>, p: nat, info: MadtInfo)
    requires p + 12 <= |bs|
    ensures var (typ, len) := (bs[p], bs[p + 1]);
            Visit(bs, p, info) == Some(
              if typ == 0 && len >= 8 then info.(cpus := info.cpus + [CpuEntry(bs[p + 3], bs[p + 4] % 2 == 1, false)])
              else if typ == 1 && len >= 12 then
                info.(ioapics := info.ioapics + [IoApic(bs[p + 2], Word32(bs, p + 4), Word32(bs, p + 8))])
              else if typ == 5 && len >= 12 then
                info.(lapicPhys := Word32(bs, p + 4) + 0x1_0000_0000 * Word32(bs, p + 8))
              else if typ == 9 && len >= 16 then
                info.(cpus := info.cpus + [CpuEntry(Word32(bs, p + 4), bs[p + 8] % 2 == 1, true)])
              else info)
  {
    Le4(bs, p + 4);
    Le4(bs, p + 8);
    Le8(bs, p + 4);
    LowBit(bs, p + 4);
    LowBit(bs, p + 8);
    hide Le, Word32;
  }

  lemma LowBit(bs: seq<byte>, i: nat)
    requires i + 4 <= |bs|
    ensures Word32(bs, i) % 2 == bs[i] % 2
  {
  }
}

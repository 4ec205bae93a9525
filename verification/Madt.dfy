/** Finding and reading the ACPI table of interrupt controllers (sections 5.2.7, 5.2.8 and 5.2.12 of the ACPI
    Specification). */
module Madt {

  import opened Wrappers
  import opened Bits
  import opened LittleEndian

  /** Physical memory, byte by byte. */
  type Phys = nat -> byte

  const SDT_HEADER: nat := 36
  const MADT_HEADER: nat := 44

  function Slice(mem: Phys, phys: nat, n: nat): (bs: seq<byte>)
    ensures |bs| == n
  {
    seq(n, i requires i >= 0 => mem(phys + i))
  }

  /* ------------------------------ Tables ------------------------------ */

  datatype Sdt = Sdt(sig: seq<byte>, length: nat)

  /** The header of the table at phys, if its length covers the header and its bytes sum to zero. */
  function SdtValid(mem: Phys, phys: nat): Option<Sdt> {
    var length := FromLe(Slice(mem, phys + 4, 4));
    if length < SDT_HEADER || Sum(Slice(mem, phys, length)) != 0 then None
    else Some(Sdt(Slice(mem, phys, 4), length))
  }

  /** The i-th pointer of a root table whose pointers have the given width. */
  function Pointer(mem: Phys, root: nat, width: nat, i: nat): nat {
    FromLe(Slice(mem, root + SDT_HEADER + i * width, width))
  }

  function PointerCount(t: Sdt, width: nat): nat
    requires width > 0 && t.length >= SDT_HEADER
  {
    (t.length - SDT_HEADER) / width
  }

  /** The table at phys is valid and carries the signature. */
  predicate IsTable(mem: Phys, phys: nat, want: seq<byte>) {
    SdtValid(mem, phys).Some? && SdtValid(mem, phys).value.sig == want
  }

  /** The search through a root table, with 8-byte pointers for the XSDT and 4-byte ones for the RSDT: the first valid
      table with the signature, or None exactly if the root is invalid or has no such table. */
  method FindSdtBySig(mem: Phys, root: nat, width: nat, want: seq<byte>) returns (r: Option<(nat, nat)>)
    requires width == 4 || width == 8
    ensures r == None <==>
            SdtValid(mem, root) == None ||
            forall i :: 0 <= i < PointerCount(SdtValid(mem, root).value, width) ==> !IsTable(mem, Pointer(mem, root, width, i), want)
    ensures r.Some? ==>
              exists i :: && 0 <= i < PointerCount(SdtValid(mem, root).value, width)
                          && r.value.0 == Pointer(mem, root, width, i) && IsTable(mem, r.value.0, want)
                          && r.value.1 == SdtValid(mem, r.value.0).value.length
                          && forall j :: 0 <= j < i ==> !IsTable(mem, Pointer(mem, root, width, j), want)
  {
    hide Pointer, Slice;
    var rootTable := SdtValid(mem, root);
    if rootTable == None {
      return None;
    }
    RootLength(mem, root);
    hide SdtValid;
    var entries := (rootTable.value.length - SDT_HEADER) / width;
    for i := 0 to entries
      invariant forall j :: 0 <= j < i ==> !IsTable(mem, Pointer(mem, root, width, j), want)
    {
      var phys := Pointer(mem, root, width, i);
      var t := SdtValid(mem, phys);
      if t.Some? && t.value.sig == want {
        return Some((phys, t.value.length));
      }
    }
    r := None;
  }

  lemma RootLength(mem: Phys, root: nat)
    ensures SdtValid(mem, root).Some? ==> SdtValid(mem, root).value.length >= SDT_HEADER
  {
  }

  /* ------------------------------ Entries ------------------------------ */

  datatype CpuEntry = CpuEntry(apicId: nat, enabled: bool, isX2apic: bool)

  datatype IoApic = IoApic(id: nat, mmioBase: nat, gsiBase: nat)

  datatype MadtInfo = MadtInfo(lapicPhys: nat, cpus: seq<CpuEntry>, ioapics: seq<IoApic>)

  /** The little-endian number of n bytes at index i. */
  function Le(bs: seq<byte>, i: nat, n: nat): nat
    requires i + n <= |bs|
  {
    FromLe(bs[i..i + n])
  }

  /** What the entry at p adds; None stands for the panic of an index past the end of the table. */
  function Visit(bs: seq<byte>, p: nat, info: MadtInfo): Option<MadtInfo>
    requires p + 2 <= |bs|
  {
    var (typ, len) := (bs[p], bs[p + 1]);
    if typ == 0 && len >= 8 then
      if p + 8 > |bs| then None
      else Some(info.(cpus := info.cpus + [CpuEntry(bs[p + 3], Le(bs, p + 4, 4) % 2 == 1, false)]))
    else if typ == 1 && len >= 12 then
      if p + 12 > |bs| then None
      else Some(info.(ioapics := info.ioapics + [IoApic(bs[p + 2], Le(bs, p + 4, 4), Le(bs, p + 8, 4))]))
    else if typ == 5 && len >= 12 then
      if p + 12 > |bs| then None else Some(info.(lapicPhys := Le(bs, p + 4, 8)))
    else if typ == 9 && len >= 16 then
      if p + 12 > |bs| then None
      else Some(info.(cpus := info.cpus + [CpuEntry(Le(bs, p + 4, 4), Le(bs, p + 8, 4) % 2 == 1, true)]))
    else Some(info)
  }

  /** The entries from p on. An entry of length zero ends the walk. */
  function Walk(bs: seq<byte>, p: nat, info: MadtInfo): Option<MadtInfo>
    decreases |bs| - p
  {
    if p + 2 > |bs| || bs[p + 1] == 0 then Some(info)
    else
      match Visit(bs, p, info)
      case None => None
      case Some(more) => Walk(bs, p + bs[p + 1], more)
  }

  /** Where the walk from p finds its entries. */
  function Positions(bs: seq<byte>, p: nat): seq<nat>
    decreases |bs| - p
  {
    if p + 2 > |bs| || bs[p + 1] == 0 then [] else [p] + Positions(bs, p + bs[p + 1])
  }

  /** Bytes that the decoder of an entry looks at, judging by its type and length. */
  function FixedPart(typ: byte, len: byte): nat {
    if typ == 0 && len >= 8 then 8
    else if (typ == 1 || typ == 5) && len >= 12 then 12
    else if typ == 9 && len >= 16 then 12
    else 2
  }

  predicate Truncated(bs: seq<byte>, p: nat) { p + 2 <= |bs| && p + FixedPart(bs[p], bs[p + 1]) > |bs| }

  /** The walk panics if and only if it reaches an entry whose type and length promise more than the table holds. */
  lemma {:induction false} WalkPanicsIff(bs: seq<byte>, p: nat, info: MadtInfo)
    ensures Walk(bs, p, info) == None <==> exists q :: q in Positions(bs, p) && Truncated(bs, q)
    decreases |bs| - p
  {
    hide Visit, Truncated, Walk, Positions;
    UnfoldWalk(bs, p, info);
    if p + 2 <= |bs| && bs[p + 1] != 0 {
      VisitPanicsIff(bs, p, info);
      var rest := Positions(bs, p + bs[p + 1]);
      assert forall q :: q in Positions(bs, p) <==> q == p || q in rest;
      match Visit(bs, p, info) {
        case None =>
          assert p in Positions(bs, p);
        case Some(more) =>
          WalkPanicsIff(bs, p + bs[p + 1], more);
      }
    }
  }

  lemma UnfoldWalk(bs: seq<byte>, p: nat, info: MadtInfo)
    ensures if p + 2 > |bs| || bs[p + 1] == 0 then Walk(bs, p, info) == Some(info) && Positions(bs, p) == []
            else
              var (visit, next) := (Visit(bs, p, info), p + bs[p + 1]);
              && Walk(bs, p, info) == (if visit == None then None else Walk(bs, next, visit.value))
              && Positions(bs, p) == [p] + Positions(bs, next)
  {
    hide Visit;
  }

  lemma VisitPanicsIff(bs: seq<byte>, p: nat, info: MadtInfo)
    requires p + 2 <= |bs|
    ensures Visit(bs, p, info) == None <==> Truncated(bs, p)
  {
  }

  /** The local APIC address in the header of the table at phys. */
  function HeaderLapic(mem: Phys, phys: nat): nat { FromLe(Slice(mem, phys + SDT_HEADER, 4)) }

  /** The last part of `discover`, on the table of the given length at phys: the header's address, and the loop over the
      entries, which always ends. */
  method WalkEntries(mem: Phys, phys: nat, length: nat) returns (r: Option<MadtInfo>)
    ensures r == Walk(Slice(mem, phys, length), MADT_HEADER, MadtInfo(HeaderLapic(mem, phys), [], []))
  {
    hide Visit;
    var bs := Slice(mem, phys, length);
    var info := MadtInfo(HeaderLapic(mem, phys), [], []);
    ghost var start := info;
    var p := MADT_HEADER;
    while p + 2 <= |bs|
      invariant Walk(bs, MADT_HEADER, start) == Walk(bs, p, info)
      decreases |bs| - p
    {
      if bs[p + 1] == 0 {
        break;
      }
      var more := VisitEntry(bs, p, info);
      if more == None {
        return None;
      }
      info := more.value;
      p := p + bs[p + 1];
    }
    r := Some(info);
  }

  /** The match on one entry's type. */
  method VisitEntry(bs: seq<byte>, p: nat, info: MadtInfo) returns (r: Option<MadtInfo>)
    requires p + 2 <= |bs|
    ensures r == Visit(bs, p, info)
  {
    var typ, len := bs[p], bs[p + 1];
    if typ == 0 && len >= 8 {
      if p + 8 > |bs| {
        return None;
      }
      var flags := Le(bs, p + 4, 4);
      return Some(info.(cpus := info.cpus + [CpuEntry(bs[p + 3], flags % 2 == 1, false)]));
    }
    if typ == 1 && len >= 12 {
      if p + 12 > |bs| {
        return None;
      }
      var base, gsi := Le(bs, p + 4, 4), Le(bs, p + 8, 4);
      return Some(info.(ioapics := info.ioapics + [IoApic(bs[p + 2], base, gsi)]));
    }
    if typ == 5 && len >= 12 {
      if p + 12 > |bs| {
        return None;
      }
      return Some(info.(lapicPhys := Le(bs, p + 4, 8)));
    }
    if typ == 9 && len >= 16 {
      if p + 12 > |bs| {
        return None;
      }
      var apicId, flags := Le(bs, p + 4, 4), Le(bs, p + 8, 4);
      return Some(info.(cpus := info.cpus + [CpuEntry(apicId, flags % 2 == 1, true)]));
    }
    r := Some(info);
  }

  /* ------------------------------ Well-formed tables ------------------------------ */

  /** The entry formats, with whatever bytes a longer entry may have at its end. */
  datatype Entry =
    | LocalApic(uid: byte, apicId: byte, flags: nat, extra: seq<byte>)
    | IoApicEntry(id: byte, address: nat, gsi: nat, extra: seq<byte>)
    | AddressOverride(lapic: nat, extra: seq<byte>)
    | LocalX2Apic(x2apicId: nat, flags: nat, x2uid: nat, extra: seq<byte>)
    | Other(typ: byte, body: seq<byte>)

  const U32: nat := 0x1_0000_0000

  predicate EntryOk(e: Entry) {
    match e
    case LocalApic(_, _, flags, extra) => flags < U32 && 8 + |extra| < 0x100
    case IoApicEntry(_, address, gsi, extra) => address < U32 && gsi < U32 && 12 + |extra| < 0x100
    case AddressOverride(lapic, extra) => lapic < WORD && 12 + |extra| < 0x100
    case LocalX2Apic(id, flags, uid, extra) => id < U32 && flags < U32 && uid < U32 && 16 + |extra| < 0x100
    case Other(typ, body) => typ !in {0, 1, 5, 9} && 2 + |body| < 0x100
  }

  function Encode(e: Entry): (bs: seq<byte>)
    requires EntryOk(e)
    ensures |bs| >= 2 && bs[1] == |bs|
  {
    match e
    case LocalApic(uid, id, flags, extra) => [0, 8 + |extra|, uid, id] + LeBytes(flags, 4) + extra
    case IoApicEntry(id, address, gsi, extra) => [1, 12 + |extra|, id, 0] + LeBytes(address, 4) + LeBytes(gsi, 4) + extra
    case AddressOverride(lapic, extra) => [5, 12 + |extra|, 0, 0] + LeBytes(lapic, 8) + extra
    case LocalX2Apic(id, flags, uid, extra) =>
      [9, 16 + |extra|, 0, 0] + LeBytes(id, 4) + LeBytes(flags, 4) + LeBytes(uid, 4) + extra
    case Other(typ, body) => [typ, 2 + |body|] + body
  }

  /** What an entry says. */
  function Apply(info: MadtInfo, e: Entry): MadtInfo {
    match e
    case LocalApic(_, id, flags, _) => info.(cpus := info.cpus + [CpuEntry(id, flags % 2 == 1, false)])
    case IoApicEntry(id, address, gsi, _) => info.(ioapics := info.ioapics + [IoApic(id, address, gsi)])
    case AddressOverride(lapic, _) => info.(lapicPhys := lapic)
    case LocalX2Apic(id, flags, _, _) => info.(cpus := info.cpus + [CpuEntry(id, flags % 2 == 1, true)])
    case Other(_, _) => info
  }

  lemma LeAt(before: seq<byte>, v: nat, n: nat, after: seq<byte>)
    requires v < Pow2(8 * n)
    ensures Le(before + LeBytes(v, n) + after, |before|, n) == v
  {
    hide LeBytes, FromLe, Pow2;
    var s := before + LeBytes(v, n) + after;
    assert s[|before|..|before| + n] == LeBytes(v, n);
    LeRoundTrip(v, n);
    DivModUnique(v, Pow2(8 * n), 0, v);
  }

  /** A word in the middle of a string, found at its index. */
  lemma LeIn(s: seq<byte>, i: nat, v: nat, n: nat)
    requires i + n <= |s| && s[i..i + n] == LeBytes(v, n) && v < Pow2(8 * n)
    ensures Le(s, i, n) == v
  {
    hide LeBytes, FromLe, Pow2;
    assert s == s[..i] + LeBytes(v, n) + s[i + n..];
    LeAt(s[..i], v, n, s[i + n..]);
  }

  lemma Widths()
    ensures Pow2(8 * 4) == U32 && Pow2(8 * 8) == WORD
  {
    HalfWord();
    Pow2Values();
  }

  lemma VisitLocalApic(before: seq<byte>, e: Entry, after: seq<byte>, info: MadtInfo)
    requires e.LocalApic? && EntryOk(e)
    ensures Visit(before + Encode(e) + after, |before|, info) == Some(Apply(info, e))
  {
    hide LeBytes, FromLe, Le, Pow2;
    Widths();
    var (s, p) := (before + Encode(e) + after, |before|);
    assert s[p] == 0 && s[p + 1] == 8 + |e.extra| && s[p + 3] == e.apicId;
    assert s[p + 4..p + 8] == LeBytes(e.flags, 4);
    LeIn(s, p + 4, e.flags, 4);
  }

  lemma VisitIoApic(before: seq<byte>, e: Entry, after: seq<byte>, info: MadtInfo)
    requires e.IoApicEntry? && EntryOk(e)
    ensures Visit(before + Encode(e) + after, |before|, info) == Some(Apply(info, e))
  {
    hide LeBytes, FromLe, Le, Pow2;
    Widths();
    var (s, p) := (before + Encode(e) + after, |before|);
    assert s[p] == 1 && s[p + 1] == 12 + |e.extra| && s[p + 2] == e.id;
    assert s[p + 4..p + 8] == LeBytes(e.address, 4);
    assert s[p + 8..p + 12] == LeBytes(e.gsi, 4);
    LeIn(s, p + 4, e.address, 4);
    LeIn(s, p + 8, e.gsi, 4);
  }

  lemma VisitOverride(before: seq<byte>, e: Entry, after: seq<byte>, info: MadtInfo)
    requires e.AddressOverride? && EntryOk(e)
    ensures Visit(before + Encode(e) + after, |before|, info) == Some(Apply(info, e))
  {
    hide LeBytes, FromLe, Le, Pow2;
    Widths();
    var (s, p) := (before + Encode(e) + after, |before|);
    assert s[p] == 5 && s[p + 1] == 12 + |e.extra|;
    assert s[p + 4..p + 12] == LeBytes(e.lapic, 8);
    LeIn(s, p + 4, e.lapic, 8);
  }

  lemma VisitX2Apic(before: seq<byte>, e: Entry, after: seq<byte>, info: MadtInfo)
    requires e.LocalX2Apic? && EntryOk(e)
    ensures Visit(before + Encode(e) + after, |before|, info) == Some(Apply(info, e))
  {
    hide LeBytes, FromLe, Le, Pow2;
    Widths();
    var (s, p) := (before + Encode(e) + after, |before|);
    assert s[p] == 9 && s[p + 1] == 16 + |e.extra|;
    assert s[p + 4..p + 8] == LeBytes(e.x2apicId, 4);
    assert s[p + 8..p + 12] == LeBytes(e.flags, 4);
    LeIn(s, p + 4, e.x2apicId, 4);
    LeIn(s, p + 8, e.flags, 4);
  }

  /** Each encoded entry is read as what it says. */
  lemma VisitEncoded(before: seq<byte>, e: Entry, after: seq<byte>, info: MadtInfo)
    requires EntryOk(e)
    ensures Visit(before + Encode(e) + after, |before|, info) == Some(Apply(info, e))
  {
    if e.Other? {
      var (s, p) := (before + Encode(e) + after, |before|);
      assert s[p] == e.typ && s[p + 1] == 2 + |e.body|;
    } else {
      hide Visit, Encode, Apply, EntryOk;
      match e {
        case LocalApic(_, _, _, _) => VisitLocalApic(before, e, after, info);
        case IoApicEntry(_, _, _, _) => VisitIoApic(before, e, after, info);
        case AddressOverride(_, _) => VisitOverride(before, e, after, info);
        case LocalX2Apic(_, _, _, _) => VisitX2Apic(before, e, after, info);
      }
    }
  }

  function EncodeAll(es: seq<Entry>): seq<byte>
    requires forall i :: 0 <= i < |es| ==> EntryOk(es[i])
  {
    if es == [] then [] else Encode(es[0]) + EncodeAll(es[1..])
  }

  function ApplyAll(info: MadtInfo, es: seq<Entry>): MadtInfo
    decreases |es|
  {
    if es == [] then info else ApplyAll(Apply(info, es[0]), es[1..])
  }

  /** The walk inverts the encoding: it reads every entry of a well-formed table, in order and in bounds. */
  lemma {:induction false} WalkInverts(before: seq<byte>, es: seq<Entry>, info: MadtInfo)
    requires forall i :: 0 <= i < |es| ==> EntryOk(es[i])
    ensures Walk(before + EncodeAll(es), |before|, info) == Some(ApplyAll(info, es))
    decreases |es|
  {
    hide Visit, Encode, Apply, EntryOk;
    if es != [] {
      var e, rest := es[0], EncodeAll(es[1..]);
      var s := before + EncodeAll(es);
      assert s == before + Encode(e) + rest;
      assert s[|before| + 1] == Encode(e)[1];
      VisitEncoded(before, e, rest, info);
      assert s == (before + Encode(e)) + rest;
      WalkInverts(before + Encode(e), es[1..], Apply(info, e));
    }
  }

  /* ------------------------------ What the result contains ------------------------------ */

  function CpuOf(e: Entry): seq<CpuEntry> {
    match e
    case LocalApic(_, id, flags, _) => [CpuEntry(id, flags % 2 == 1, false)]
    case LocalX2Apic(id, flags, _, _) => [CpuEntry(id, flags % 2 == 1, true)]
    case _ => []
  }

  function CpusOf(es: seq<Entry>): seq<CpuEntry> {
    if es == [] then [] else CpuOf(es[0]) + CpusOf(es[1..])
  }

  function IoApicOf(e: Entry): seq<IoApic> {
    if e.IoApicEntry? then [IoApic(e.id, e.address, e.gsi)] else []
  }

  function IoApicsOf(es: seq<Entry>): seq<IoApic> {
    if es == [] then [] else IoApicOf(es[0]) + IoApicsOf(es[1..])
  }

  /** The last override, or what the header says. */
  function LapicOf(header: nat, es: seq<Entry>): nat {
    if es == [] then header
    else if es[|es| - 1].AddressOverride? then es[|es| - 1].lapic
    else LapicOf(header, es[..|es| - 1])
  }

  lemma {:induction false} LapicCons(header: nat, e: Entry, es: seq<Entry>)
    ensures LapicOf(header, [e] + es) == LapicOf(if e.AddressOverride? then e.lapic else header, es)
    decreases |es|
  {
    var all := [e] + es;
    if es == [] {
      assert all[..|all| - 1] == [];
    } else {
      assert all[..|all| - 1] == [e] + es[..|es| - 1];
      LapicCons(header, e, es[..|es| - 1]);
    }
  }

  lemma {:induction false} ApplyAllCollects(info: MadtInfo, es: seq<Entry>)
    ensures ApplyAll(info, es) ==
            MadtInfo(LapicOf(info.lapicPhys, es), info.cpus + CpusOf(es), info.ioapics + IoApicsOf(es))
    decreases |es|
  {
    hide Apply, CpuOf, IoApicOf, LapicOf;
    if es == [] {
      assert info.cpus + CpusOf(es) == info.cpus && info.ioapics + IoApicsOf(es) == info.ioapics;
      NoOverride(info.lapicPhys, es);
    } else {
      var e, rest := es[0], es[1..];
      ApplyOne(info, e);
      ApplyAllCollects(Apply(info, e), rest);
      assert es == [e] + rest;
      LapicCons(info.lapicPhys, e, rest);
      assert info.cpus + CpusOf(es) == info.cpus + CpuOf(e) + CpusOf(rest);
      assert info.ioapics + IoApicsOf(es) == info.ioapics + IoApicOf(e) + IoApicsOf(rest);
    }
  }

  lemma NoOverride(header: nat, es: seq<Entry>)
    requires es == []
    ensures LapicOf(header, es) == header
  {
  }

  lemma ApplyOne(info: MadtInfo, e: Entry)
    ensures Apply(info, e) == MadtInfo(if e.AddressOverride? then e.lapic else info.lapicPhys,
                                       info.cpus + CpuOf(e), info.ioapics + IoApicOf(e))
  {
  }

  /** Memory holds at phys a table of a header and well-formed entries. */
  ghost predicate HoldsTable(mem: Phys, phys: nat, length: nat, header: seq<byte>, es: seq<Entry>) {
    && |header| == MADT_HEADER && (forall i :: 0 <= i < |es| ==> EntryOk(es[i]))
    && Slice(mem, phys, length) == header + EncodeAll(es)
  }

  /** What such a table says: its processors and I/O APICs in table order, and the address of the last override, or of
      the header if there is none. */
  function Described(header: seq<byte>, es: seq<Entry>): MadtInfo
    requires |header| == MADT_HEADER
  {
    MadtInfo(LapicOf(Le(header, SDT_HEADER, 4), es), CpusOf(es), IoApicsOf(es))
  }

  /** A well-formed table is read as what it says. */
  lemma WholeTable(mem: Phys, phys: nat, length: nat, header: seq<byte>, es: seq<Entry>)
    requires HoldsTable(mem, phys, length, header, es)
    ensures Walk(Slice(mem, phys, length), MADT_HEADER, MadtInfo(HeaderLapic(mem, phys), [], [])) == Some(Described(header, es))
  {
    hide EntryOk, Encode;
    var lapic := HeaderLapic(mem, phys);
    HeaderField(mem, phys, length, header, EncodeAll(es));
    WalkInverts(header, es, MadtInfo(lapic, [], []));
    ApplyAllCollects(MadtInfo(lapic, [], []), es);
    assert [] + CpusOf(es) == CpusOf(es) && [] + IoApicsOf(es) == IoApicsOf(es);
  }

  lemma HeaderField(mem: Phys, phys: nat, length: nat, header: seq<byte>, rest: seq<byte>)
    requires |header| == MADT_HEADER && Slice(mem, phys, length) == header + rest
    ensures HeaderLapic(mem, phys) == Le(header, SDT_HEADER, 4)
  {
    var bs := Slice(mem, phys, length);
    assert bs[SDT_HEADER..SDT_HEADER + 4] == (header + rest)[SDT_HEADER..SDT_HEADER + 4] == header[SDT_HEADER..SDT_HEADER + 4];
    assert Slice(mem, phys + SDT_HEADER, 4) == bs[SDT_HEADER..SDT_HEADER + 4];
  }

  /* ------------------------------ The whole search ------------------------------ */

  /** "APIC" */
  const APIC: seq<byte> := [0x41, 0x50, 0x49, 0x43]

  /** How discovery ends: nothing found, a panic over a truncated entry, or what the table says. */
  datatype Discovery = NotFound | Panicked | Discovered(info: MadtInfo)

  /** The search of a root table, which is skipped when its address is zero. */
  method FindIn(mem: Phys, root: nat, width: nat) returns (r: Option<(nat, nat)>)
    requires width == 4 || width == 8
    ensures r == FirstTable(mem, root, width)
  {
    hide Pointer, SdtValid, PointerCount;
    r := None;
    if root != 0 {
      r := FindSdtBySig(mem, root, width, APIC);
      RootLength(mem, root);
      FirstIs(mem, root, width, r);
    }
  }

  /** The table that the search of a root table settles on, with its length: the first valid one with the signature. */
  function FirstTable(mem: Phys, root: nat, width: nat): Option<(nat, nat)>
    requires width > 0
  {
    if root == 0 || SdtValid(mem, root) == None then None
    else RootLength(mem, root); FirstFrom(mem, root, width, 0, PointerCount(SdtValid(mem, root).value, width))
  }

  function FirstFrom(mem: Phys, root: nat, width: nat, i: nat, n: nat): Option<(nat, nat)>
    requires i <= n
    decreases n - i
  {
    if i == n then None
    else
      var phys := Pointer(mem, root, width, i);
      if IsTable(mem, phys, APIC) then Some((phys, SdtValid(mem, phys).value.length)) else FirstFrom(mem, root, width, i + 1, n)
  }

  lemma FirstIs(mem: Phys, root: nat, width: nat, r: Option<(nat, nat)>)
    requires root != 0 && width > 0 && (SdtValid(mem, root).Some? ==> SdtValid(mem, root).value.length >= SDT_HEADER)
    requires r == None <==>
             SdtValid(mem, root) == None ||
             forall i :: 0 <= i < PointerCount(SdtValid(mem, root).value, width) ==> !IsTable(mem, Pointer(mem, root, width, i), APIC)
    requires r.Some? ==>
               exists i :: && 0 <= i < PointerCount(SdtValid(mem, root).value, width)
                           && r.value.0 == Pointer(mem, root, width, i) && IsTable(mem, r.value.0, APIC)
                           && r.value.1 == SdtValid(mem, r.value.0).value.length
                           && forall j :: 0 <= j < i ==> !IsTable(mem, Pointer(mem, root, width, j), APIC)
    ensures r == FirstTable(mem, root, width)
  {
    hide Pointer, SdtValid, PointerCount;
    if SdtValid(mem, root).Some? {
      var n := PointerCount(SdtValid(mem, root).value, width);
      if r == None {
        FirstSkips(mem, root, width, 0, n, n);
      } else {
        var i :| && 0 <= i < n
                 && r.value.0 == Pointer(mem, root, width, i) && IsTable(mem, r.value.0, APIC)
                 && r.value.1 == SdtValid(mem, r.value.0).value.length
                 && forall j :: 0 <= j < i ==> !IsTable(mem, Pointer(mem, root, width, j), APIC);
        FirstSkips(mem, root, width, 0, i, n);
      }
    }
  }

  lemma {:induction false} FirstSkips(mem: Phys, root: nat, width: nat, i: nat, k: nat, n: nat)
    requires i <= k <= n && forall j :: i <= j < k ==> !IsTable(mem, Pointer(mem, root, width, j), APIC)
    ensures FirstFrom(mem, root, width, i, n) == FirstFrom(mem, root, width, k, n)
    decreases k - i
  {
    hide Pointer, IsTable;
    if i < k {
      FirstSkips(mem, root, width, i + 1, k, n);
    }
  }

  /** `discover` once the root pointers are known (zero means there is none): the XSDT first, the RSDT if that has no
      such table, then the entries. */
  method Discover(mem: Phys, xsdt: nat, rsdt: nat) returns (r: Discovery)
    ensures r == DiscoverResult(mem, xsdt, rsdt)
  {
    hide FirstTable, Walk, HeaderLapic, Slice;
    var madt := FindIn(mem, xsdt, 8);
    if madt == None {
      madt := FindIn(mem, rsdt, 4);
    }
    if madt == None {
      return NotFound;
    }
    var walked := WalkEntries(mem, madt.value.0, madt.value.1);
    r := if walked == None then Panicked else Discovered(walked.value);
  }

  function DiscoverResult(mem: Phys, xsdt: nat, rsdt: nat): Discovery {
    match FoundTable(mem, xsdt, rsdt)
    case None => NotFound
    case Some((phys, length)) =>
      match Walk(Slice(mem, phys, length), MADT_HEADER, MadtInfo(HeaderLapic(mem, phys), [], []))
      case None => Panicked
      case Some(info) => Discovered(info)
  }

  function FoundTable(mem: Phys, xsdt: nat, rsdt: nat): Option<(nat, nat)> {
    if FirstTable(mem, xsdt, 8).Some? then FirstTable(mem, xsdt, 8) else FirstTable(mem, rsdt, 4)
  }

  /** If the table that the search settles on is well formed, discovery returns what it says. */
  lemma DiscoveryInverts(mem: Phys, xsdt: nat, rsdt: nat, header: seq<byte>, es: seq<Entry>)
    requires FoundTable(mem, xsdt, rsdt).Some?
    requires var (phys, length) := FoundTable(mem, xsdt, rsdt).value; HoldsTable(mem, phys, length, header, es)
    ensures var (phys, length) := FoundTable(mem, xsdt, rsdt).value;
            && IsTable(mem, phys, APIC) && length == |header + EncodeAll(es)|
            && Walk(Slice(mem, phys, length), MADT_HEADER, MadtInfo(HeaderLapic(mem, phys), [], [])) == Some(Described(header, es))
  {
    hide Walk, EntryOk, HeaderLapic, Described;
    var (phys, length) := FoundTable(mem, xsdt, rsdt).value;
    WholeTable(mem, phys, length, header, es);
    FoundIsTable(mem, xsdt, rsdt);
  }

  lemma FoundIsTable(mem: Phys, xsdt: nat, rsdt: nat)
    requires FoundTable(mem, xsdt, rsdt).Some?
    ensures IsTable(mem, FoundTable(mem, xsdt, rsdt).value.0, APIC)
  {
    hide IsTable, SdtValid, Pointer;
    if FirstTable(mem, xsdt, 8).Some? {
      FirstIsTable(mem, xsdt, 8, 0, PointerCount(SdtValid(mem, xsdt).value, 8));
    } else {
      FirstIsTable(mem, rsdt, 4, 0, PointerCount(SdtValid(mem, rsdt).value, 4));
    }
  }

  lemma {:induction false} FirstIsTable(mem: Phys, root: nat, width: nat, i: nat, n: nat)
    requires i <= n && FirstFrom(mem, root, width, i, n).Some?
    ensures IsTable(mem, FirstFrom(mem, root, width, i, n).value.0, APIC)
    decreases n - i
  {
    hide IsTable, SdtValid, Pointer;
    if !IsTable(mem, Pointer(mem, root, width, i), APIC) {
      FirstIsTable(mem, root, width, i + 1, n);
    }
  }
}

/** The register block of the debugger's `g` and `G` packets. */
module Registers {

  import opened Wrappers
  import opened Bits
  import opened Context
  import opened Hex
  import opened LittleEndian

  const G_HEX_LEN: nat := 572

  /** Characters that `write_g` produces, and that `read_g` looks at. */
  const WRITTEN: nat := 560
  const READ: nat := 376

  /* ------------------------------ Words ------------------------------ */

  /** Every byte as two digits. */
  function HexBytes(bs: seq<byte>): (s: seq<byte>)
    ensures |s| == 2 * |bs|
  {
    if bs == [] then [] else HexBytes(bs[..|bs| - 1]) + HexPair(bs[|bs| - 1])
  }

  /** All of s[i..i + m] are hexadecimal digits. */
  predicate HexAt(s: seq<byte>, i: nat, m: nat) {
    i + m <= |s| && forall k :: i <= k < i + m ==> FromHex(s[k]).Some?
  }

  /** The n bytes written as digits from s[i] on. */
  function DecodeBytes(s: seq<byte>, i: nat, n: nat): (bs: seq<byte>)
    requires HexAt(s, i, 2 * n)
    ensures |bs| == n
  {
    if n == 0 then []
    else
      var k := i + 2 * (n - 1);
      DecodeBytes(s, i, n - 1) + [Join(FromHex(s[k]).value, FromHex(s[k + 1]).value)]
  }

  function Word(v: nat, n: nat): (s: seq<byte>)
    ensures |s| == 2 * n
  {
    HexBytes(LeBytes(v, n))
  }

  /** The number of n bytes at s[i]. */
  function Field(s: seq<byte>, i: nat, n: nat): nat
    requires HexAt(s, i, 2 * n)
  {
    FromLe(DecodeBytes(s, i, n))
  }

  lemma {:induction false} DecodeHex(before: seq<byte>, bs: seq<byte>, after: seq<byte>)
    ensures HexAt(before + HexBytes(bs) + after, |before|, 2 * |bs|)
    ensures DecodeBytes(before + HexBytes(bs) + after, |before|, |bs|) == bs
    decreases |bs|
  {
    hide FromHex, HexPair, Join;
    if bs != [] {
      var n := |bs| - 1;
      var pair := HexPair(bs[n]);
      DecodeHex(before, bs[..n], pair + after);
      PairRoundTrip(bs[n]);
      var s := before + HexBytes(bs) + after;
      assert s == before + HexBytes(bs[..n]) + (pair + after);
      var k := |before| + 2 * n;
      assert s[k] == pair[0] && s[k + 1] == pair[1];
      assert bs == bs[..n] + [bs[n]];
    }
  }

  /** A word written into a block reads back, wherever it stands. */
  lemma WordRoundTrip(before: seq<byte>, v: nat, n: nat, after: seq<byte>)
    ensures HexAt(before + Word(v, n) + after, |before|, 2 * n)
    ensures Field(before + Word(v, n) + after, |before|, n) == v % Pow2(8 * n)
  {
    hide DecodeBytes, HexBytes, FromLe, LeBytes;
    DecodeHex(before, LeBytes(v, n), after);
    LeRoundTrip(v, n);
  }

  /** A run of words of n bytes each. */
  function Words(vs: seq<nat>, n: nat): (s: seq<byte>)
    ensures |s| == 2 * n * |vs|
  {
    if vs == [] then [] else Words(vs[..|vs| - 1], n) + Word(vs[|vs| - 1], n)
  }

  lemma WordsAppend(vs: seq<nat>, v: nat, n: nat)
    ensures Words(vs + [v], n) == Words(vs, n) + Word(v, n)
  {
    assert (vs + [v])[..|vs|] == vs;
  }

  lemma {:induction false} WordsAt(before: seq<byte>, vs: seq<nat>, n: nat, after: seq<byte>, k: nat)
    requires k < |vs|
    ensures HexAt(before + Words(vs, n) + after, |before| + 2 * n * k, 2 * n)
    ensures Field(before + Words(vs, n) + after, |before| + 2 * n * k, n) == vs[k] % Pow2(8 * n)
    decreases |vs|
  {
    hide Field, HexAt, Word;
    var m := |vs| - 1;
    var s := before + Words(vs, n) + after;
    if k == m {
      assert s == (before + Words(vs[..m], n)) + Word(vs[m], n) + after;
      WordRoundTrip(before + Words(vs[..m], n), vs[m], n, after);
    } else {
      assert s == before + Words(vs[..m], n) + (Word(vs[m], n) + after);
      WordsAt(before, vs[..m], n, Word(vs[m], n) + after, k);
    }
  }

  /* ------------------------------ The block ------------------------------ */

  function Gprs(t: TrapFrame): seq<nat> {
    [t.rax, t.rbx, t.rcx, t.rdx, t.rsi, t.rdi, t.rbp, t.rsp, t.r8, t.r9, t.r10, t.r11, t.r12, t.r13, t.r14, t.r15, t.rip]
  }

  /** Flags and segment selectors; ds, es, fs and gs go out as zero. */
  function Selectors(t: TrapFrame): seq<nat> { [t.rflags, t.cs, t.ss, 0, 0, 0, 0] }

  /** Zero digits for the floating-point registers, their control words and the two segment bases. */
  function Zeros(n: nat): (s: seq<byte>)
    ensures |s| == n
  {
    if n == 0 then [] else Zeros(n - 1) + [0x30]
  }

  function Block(t: TrapFrame): seq<byte> {
    Words(Gprs(t), 8) + Words(Selectors(t), 4) + Zeros(232)
  }

  lemma BlockLength(t: TrapFrame)
    ensures |Block(t)| == WRITTEN < G_HEX_LEN
  {
  }

  /** One little-endian word, through the cursor. */
  method PutWord(out: array<byte>, w: nat, v: nat, n: nat) returns (w': nat)
    requires w + 2 * n <= out.Length
    modifies out
    ensures w' == w + 2 * n && out[..w'] == old(out[..w]) + Word(v, n) && out[w'..] == old(out[w + 2 * n..])
  {
    hide HexPair, LeBytes;
    var bs := LeBytes(v, n);
    w' := w;
    for i := 0 to n
      invariant w' == w + 2 * i && out[..w'] == old(out[..w]) + HexBytes(bs[..i])
      invariant forall k :: w' <= k < out.Length ==> out[k] == old(out[k])
    {
      PairDigits(bs[i]);
      out[w'] := Hex4(bs[i] / 16);
      out[w' + 1] := Hex4(bs[i] % 16);
      assert bs[..i + 1][..i] == bs[..i];
      assert out[..w' + 2] == out[..w'] + HexPair(bs[i]);
      w' := w' + 2;
    }
    assert bs[..n] == bs;
  }

  lemma PairDigits(b: byte)
    ensures HexPair(b) == [Hex4(b / 16), Hex4(b % 16)]
  {
  }

  /** A block under construction: what the buffer held, the part before a run of words, and the run so far. */
  datatype Building = Building(orig: seq<byte>, base: seq<byte>, vs: seq<nat>)

  ghost predicate Built(out: array<byte>, w: nat, n: nat, b: Building)
    reads out
  {
    w <= out.Length == |b.orig| && out[..] == b.base + Words(b.vs, n) + b.orig[w..] && w == |b.base| + 2 * n * |b.vs|
  }

  /** PutWord as the next of a run of words. */
  method PutNext(out: array<byte>, w: nat, v: nat, n: nat, ghost b: Building) returns (w': nat, ghost b': Building)
    requires Built(out, w, n, b) && w + 2 * n <= out.Length
    modifies out
    ensures w' == w + 2 * n && b' == b.(vs := b.vs + [v]) && Built(out, w', n, b')
  {
    hide Word, Words;
    ghost var was := out[..];
    w' := PutWord(out, w, v, n);
    b' := b.(vs := b.vs + [v]);
    WordsAppend(b.vs, v, n);
    assert out[..] == out[..w'] + out[w'..];
    assert out[..w'] == was[..w] + Word(v, n) && out[w'..] == was[w'..];
    assert was[..w] == b.base + Words(b.vs, n) && was[w'..] == b.orig[w'..];
  }

  /** The first half of the general registers. */
  method WriteGprsLow(out: array<byte>, t: TrapFrame, ghost orig: seq<byte>) returns (w: nat, ghost b: Building)
    requires out.Length >= WRITTEN && orig == out[..]
    modifies out
    ensures w == 128 && b == Building(orig, [], Gprs(t)[..8]) && Built(out, w, 8, b)
  {
    hide Built, Gprs;
    w, b := 0, Building(orig, [], []);
    StartRun(out, [], 8, orig);
    w, b := PutNext(out, w, t.rax, 8, b);
    w, b := PutNext(out, w, t.rbx, 8, b);
    w, b := PutNext(out, w, t.rcx, 8, b);
    w, b := PutNext(out, w, t.rdx, 8, b);
    assert b.vs == [t.rax, t.rbx, t.rcx, t.rdx];
    w, b := PutNext(out, w, t.rsi, 8, b);
    w, b := PutNext(out, w, t.rdi, 8, b);
    w, b := PutNext(out, w, t.rbp, 8, b);
    w, b := PutNext(out, w, t.rsp, 8, b);
    assert b.vs == [t.rax, t.rbx, t.rcx, t.rdx, t.rsi, t.rdi, t.rbp, t.rsp];
    FirstGprs(t);
  }

  lemma FirstGprs(t: TrapFrame)
    ensures Gprs(t)[..8] == [t.rax, t.rbx, t.rcx, t.rdx, t.rsi, t.rdi, t.rbp, t.rsp]
  {
  }

  /** The second half, and RIP. */
  method WriteGprs(out: array<byte>, t: TrapFrame, ghost orig: seq<byte>) returns (w: nat)
    requires out.Length >= WRITTEN && orig == out[..]
    modifies out
    ensures w == 272 && out[..] == Words(Gprs(t), 8) + orig[272..]
  {
    hide Built;
    ghost var b;
    w, b := WriteGprsLow(out, t, orig);
    w, b := PutNext(out, w, t.r8, 8, b);
    w, b := PutNext(out, w, t.r9, 8, b);
    w, b := PutNext(out, w, t.r10, 8, b);
    w, b := PutNext(out, w, t.r11, 8, b);
    w, b := PutNext(out, w, t.r12, 8, b);
    w, b := PutNext(out, w, t.r13, 8, b);
    w, b := PutNext(out, w, t.r14, 8, b);
    w, b := PutNext(out, w, t.r15, 8, b);
    w, b := PutNext(out, w, t.rip, 8, b);
    assert b.vs == Gprs(t);
    EndRun(out, w, 8, b);
    assert [] + Words(b.vs, 8) == Words(b.vs, 8);
  }

  /** Flags and selectors. */
  method WriteSelectors(out: array<byte>, t: TrapFrame, from: nat, ghost base: seq<byte>, ghost orig: seq<byte>) returns (w: nat)
    requires out.Length == |orig| >= WRITTEN && from == 272 == |base| && out[..] == base + orig[272..]
    modifies out
    ensures w == 328 && out[..] == base + Words(Selectors(t), 4) + orig[328..]
  {
    hide Built;
    ghost var b := Building(orig, base, []);
    w := from;
    StartRun(out, base, 4, orig);
    w, b := PutNext(out, w, t.rflags, 4, b);
    w, b := PutNext(out, w, t.cs, 4, b);
    w, b := PutNext(out, w, t.ss, 4, b);
    w, b := PutNext(out, w, 0, 4, b);
    w, b := PutNext(out, w, 0, 4, b);
    w, b := PutNext(out, w, 0, 4, b);
    w, b := PutNext(out, w, 0, 4, b);
    assert b.vs == Selectors(t);
    EndRun(out, w, 4, b);
  }

  lemma StartRun(out: array<byte>, base: seq<byte>, n: nat, orig: seq<byte>)
    requires out.Length == |orig| >= |base| && out[..] == base + orig[|base|..]
    ensures Built(out, |base|, n, Building(orig, base, []))
  {
    assert base + Words([], n) + orig[|base|..] == base + orig[|base|..];
  }

  lemma EndRun(out: array<byte>, w: nat, n: nat, b: Building)
    requires Built(out, w, n, b)
    ensures w <= |b.orig| && out[..] == b.base + Words(b.vs, n) + b.orig[w..]
  {
  }

  lemma {:induction false} ZeroBytes(n: nat)
    ensures LeBytes(0, n) == seq(n, _ => 0)
  {
    if n != 0 {
      ZeroBytes(n - 1);
      assert LeBytes(0, n) == [0] + LeBytes(0, n - 1);
    }
  }

  lemma {:induction false} ZeroDigits(n: nat)
    ensures HexBytes(seq(n, _ => 0)) == Zeros(2 * n)
  {
    if n != 0 {
      ZeroDigits(n - 1);
      assert seq(n, _ => 0)[..n - 1] == seq(n - 1, _ => 0);
      assert HexPair(0) == [0x30, 0x30];
      assert Zeros(2 * n) == Zeros(2 * n - 2) + [0x30] + [0x30];
    }
  }

  lemma {:induction false} ZerosAdd(a: nat, b: nat)
    ensures Zeros(a) + Zeros(b) == Zeros(a + b)
    decreases b
  {
    if b != 0 {
      ZerosAdd(a, b - 1);
      assert Zeros(a) + Zeros(b) == Zeros(a) + Zeros(b - 1) + [0x30];
    }
  }

  /** A zero word after a run of zero digits. */
  method PutZero(out: array<byte>, w: nat, n: nat, ghost base: seq<byte>, ghost orig: seq<byte>) returns (w': nat)
    requires |base| <= w && w + 2 * n <= out.Length == |orig| && out[..] == base + Zeros(w - |base|) + orig[w..]
    modifies out
    ensures w' == w + 2 * n && out[..] == base + Zeros(w' - |base|) + orig[w'..]
  {
    hide Word, Zeros;
    ghost var was := out[..];
    w' := PutWord(out, w, 0, n);
    ZeroWord(n);
    ZerosAdd(w - |base|, 2 * n);
    assert out[..] == out[..w'] + out[w'..];
    assert out[..w'] == was[..w] + Word(0, n) && out[w'..] == was[w'..];
    assert was[..w] == base + Zeros(w - |base|) && was[w'..] == orig[w'..];
  }

  lemma ZeroWord(n: nat)
    ensures Word(0, n) == Zeros(2 * n)
  {
    ZeroBytes(n);
    ZeroDigits(n);
  }

  /** Floating-point registers, control words and segment bases. */
  method WriteZeros(out: array<byte>, from: nat, ghost base: seq<byte>, ghost orig: seq<byte>) returns (w: nat)
    requires out.Length == |orig| >= WRITTEN && from == 328 == |base| && out[..] == base + orig[328..]
    modifies out
    ensures w == WRITTEN && out[..] == base + Zeros(232) + orig[WRITTEN..]
  {
    hide Zeros;
    w := from;
    NoZeros();
    assert out[..] == base + Zeros(0) + orig[w..];
    for i := 0 to 8
      invariant w == 328 + 20 * i && out[..] == base + Zeros(w - 328) + orig[w..]
    {
      for j := 0 to 10
        invariant w == 328 + 20 * i + 2 * j && out[..] == base + Zeros(w - 328) + orig[w..]
      {
        w := PutZero(out, w, 1, base, orig);
      }
    }
    w := PutZero(out, w, 2, base, orig);
    w := PutZero(out, w, 2, base, orig);
    w := PutZero(out, w, 2, base, orig);
    w := PutZero(out, w, 2, base, orig);
    w := PutZero(out, w, 4, base, orig);
    w := PutZero(out, w, 2, base, orig);
    w := PutZero(out, w, 4, base, orig);
    w := PutZero(out, w, 2, base, orig);
    w := PutZero(out, w, 8, base, orig);
    w := PutZero(out, w, 8, base, orig);
  }

  lemma NoZeros()
    ensures Zeros(0) == []
  {
  }

  /** `write_g`: the block in the first 560 bytes of the buffer, the rest of it untouched. */
  method WriteG(out: array<byte>, t: TrapFrame) returns (w: nat)
    requires out.Length >= WRITTEN
    modifies out
    ensures w == WRITTEN && out[..w] == Block(t) && out[w..] == old(out[WRITTEN..])
  {
    hide Words, Zeros;
    ghost var orig := out[..];
    w := WriteGprs(out, t, orig);
    ghost var a := Words(Gprs(t), 8);
    w := WriteSelectors(out, t, w, a, orig);
    ghost var b := a + Words(Selectors(t), 4);
    w := WriteZeros(out, w, b, orig);
    BlockLength(t);
    assert out[..] == Block(t) + orig[WRITTEN..];
  }

  /* ------------------------------ Reading ------------------------------ */

  /** One word at idx; None if a digit is missing or is none. */
  method ReadWord(p: seq<byte>, idx: nat, n: nat) returns (v: Option<nat>, next: nat)
    requires n > 0
    ensures next == idx + 2 * n
    ensures v.Some? <==> HexAt(p, idx, 2 * n)
    ensures v.Some? ==> v.value == Field(p, idx, n)
  {
    hide FromHex, Join;
    next := idx + 2 * n;
    var le: seq<byte> := [];
    for k := 0 to n
      invariant HexAt(p, idx, 2 * k) || k == 0
      invariant k > 0 ==> le == DecodeBytes(p, idx, k)
      invariant |le| == k
    {
      if idx + 2 * k + 1 >= |p| {
        return None, next;
      }
      var hi, lo := FromHex(p[idx + 2 * k]), FromHex(p[idx + 2 * k + 1]);
      if hi == None || lo == None {
        return None, next;
      }
      le := le + [Join(hi.value, lo.value)];
    }
    v := Some(FromLe(le));
  }

  /** What a complete block does to a frame: all general registers and RIP, and the low half of the flags. */
  function Loaded(t: TrapFrame, p: seq<byte>): TrapFrame
    requires HexAt(p, 0, READ)
  {
    TrapFrame(
      Field(p, 240, 8), Field(p, 224, 8), Field(p, 208, 8), Field(p, 192, 8),
      Field(p, 176, 8), Field(p, 160, 8), Field(p, 144, 8), Field(p, 128, 8),
      Field(p, 64, 8), Field(p, 80, 8), Field(p, 96, 8), Field(p, 48, 8),
      Field(p, 32, 8), Field(p, 16, 8), Field(p, 0, 8),
      t.vec, t.err,
      Field(p, 256, 8), t.cs, t.rflags / 0x1_0000_0000 * 0x1_0000_0000 + Field(p, 288, 4), Field(p, 112, 8), t.ss)
  }

  /** Register at offset i of a block: its digits, if all characters up to their end are digits. */
  function Reg(p: seq<byte>, i: nat, was: nat): nat {
    if HexAt(p, 0, i + 16) then Field(p, i, 8) else was
  }

  function LowLoaded(t: TrapFrame, p: seq<byte>): TrapFrame {
    t.(rax := Reg(p, 0, t.rax), rbx := Reg(p, 16, t.rbx), rcx := Reg(p, 32, t.rcx), rdx := Reg(p, 48, t.rdx),
       rsi := Reg(p, 64, t.rsi), rdi := Reg(p, 80, t.rdi), rbp := Reg(p, 96, t.rbp), rsp := Reg(p, 112, t.rsp))
  }

  function HighLoaded(t: TrapFrame, p: seq<byte>): TrapFrame {
    t.(r8 := Reg(p, 128, t.r8), r9 := Reg(p, 144, t.r9), r10 := Reg(p, 160, t.r10), r11 := Reg(p, 176, t.r11),
       r12 := Reg(p, 192, t.r12), r13 := Reg(p, 208, t.r13), r14 := Reg(p, 224, t.r14), r15 := Reg(p, 240, t.r15),
       rip := Reg(p, 256, t.rip))
  }

  function FlagsLoaded(t: TrapFrame, p: seq<byte>): TrapFrame {
    if HexAt(p, 0, 296) then t.(rflags := t.rflags / 0x1_0000_0000 * 0x1_0000_0000 + Field(p, 288, 4)) else t
  }

  /** What any block of the right length does to a frame: the registers before the first bad digit are replaced. */
  function PartlyLoaded(t: TrapFrame, p: seq<byte>): TrapFrame {
    FlagsLoaded(HighLoaded(LowLoaded(t, p), p), p)
  }

  /** A bad digit stops the loading. */
  lemma StoppedBefore(t: TrapFrame, p: seq<byte>)
    ensures !HexAt(p, 0, 128) ==> HighLoaded(t, p) == t
    ensures !HexAt(p, 0, 272) ==> FlagsLoaded(t, p) == t
    ensures HexAt(p, 0, 272) ==> HexAt(p, 0, 128)
  {
    hide Field;
    if !HexAt(p, 0, 128) {
      StopsAt(p, 128);
    }
    if !HexAt(p, 0, 272) {
      StopsAt(p, 272);
    }
    hide HexAt;
  }

  lemma StopsAt(p: seq<byte>, i: nat)
    requires !HexAt(p, 0, i)
    ensures forall j :: j >= i ==> !HexAt(p, 0, j)
  {
  }

  lemma AllLoaded(t: TrapFrame, p: seq<byte>)
    requires HexAt(p, 0, READ)
    ensures PartlyLoaded(t, p) == Loaded(t, p)
  {
  }

  /** The next word of a block whose first i characters are digits. */
  method ReadNext(p: seq<byte>, i: nat, n: nat) returns (v: Option<nat>, next: nat)
    requires n > 0 && HexAt(p, 0, i)
    ensures next == i + 2 * n
    ensures v.Some? ==> HexAt(p, 0, next) && HexAt(p, i, 2 * n) && v.value == Field(p, i, n)
    ensures v == None ==> forall j :: j >= next ==> !HexAt(p, 0, j)
  {
    hide Field;
    v, next := ReadWord(p, i, n);
    NoneBeyond(p, i, 2 * n);
  }

  lemma NoneBeyond(p: seq<byte>, i: nat, m: nat)
    requires HexAt(p, 0, i)
    ensures HexAt(p, i, m) ==> HexAt(p, 0, i + m)
    ensures !HexAt(p, i, m) ==> forall j :: j >= i + m ==> !HexAt(p, 0, j)
  {
  }

  lemma NoDigitsYet(p: seq<byte>)
    ensures HexAt(p, 0, 0)
  {
  }

  /** The first half of the general registers. */
  method ReadGprsLow(t: TrapFrame, p: seq<byte>) returns (ok: bool, t': TrapFrame)
    ensures ok <==> HexAt(p, 0, 128)
    ensures t' == LowLoaded(t, p)
  {
    hide Field, HexAt;
    NoDigitsYet(p);
    t' := t;
    var i, v := 0, None;
    v, i := ReadNext(p, i, 8);
    if v == None {
      return false, t';
    }
    t' := t'.(rax := v.value);
    v, i := ReadNext(p, i, 8);
    if v == None {
      return false, t';
    }
    t' := t'.(rbx := v.value);
    v, i := ReadNext(p, i, 8);
    if v == None {
      return false, t';
    }
    t' := t'.(rcx := v.value);
    v, i := ReadNext(p, i, 8);
    if v == None {
      return false, t';
    }
    t' := t'.(rdx := v.value);
    v, i := ReadNext(p, i, 8);
    if v == None {
      return false, t';
    }
    t' := t'.(rsi := v.value);
    v, i := ReadNext(p, i, 8);
    if v == None {
      return false, t';
    }
    t' := t'.(rdi := v.value);
    v, i := ReadNext(p, i, 8);
    if v == None {
      return false, t';
    }
    t' := t'.(rbp := v.value);
    v, i := ReadNext(p, i, 8);
    if v == None {
      return false, t';
    }
    t' := t'.(rsp := v.value);
    ok := true;
  }

  /** The second half, and RIP. */
  method ReadGprsHigh(t: TrapFrame, p: seq<byte>) returns (ok: bool, t': TrapFrame)
    requires HexAt(p, 0, 128)
    ensures ok <==> HexAt(p, 0, 272)
    ensures t' == HighLoaded(t, p)
  {
    hide Field, HexAt;
    t' := t;
    var i, v := 128, None;
    v, i := ReadNext(p, i, 8);
    if v == None {
      return false, t';
    }
    t' := t'.(r8 := v.value);
    v, i := ReadNext(p, i, 8);
    if v == None {
      return false, t';
    }
    t' := t'.(r9 := v.value);
    v, i := ReadNext(p, i, 8);
    if v == None {
      return false, t';
    }
    t' := t'.(r10 := v.value);
    v, i := ReadNext(p, i, 8);
    if v == None {
      return false, t';
    }
    t' := t'.(r11 := v.value);
    v, i := ReadNext(p, i, 8);
    if v == None {
      return false, t';
    }
    t' := t'.(r12 := v.value);
    v, i := ReadNext(p, i, 8);
    if v == None {
      return false, t';
    }
    t' := t'.(r13 := v.value);
    v, i := ReadNext(p, i, 8);
    if v == None {
      return false, t';
    }
    t' := t'.(r14 := v.value);
    v, i := ReadNext(p, i, 8);
    if v == None {
      return false, t';
    }
    t' := t'.(r15 := v.value);
    v, i := ReadNext(p, i, 8);
    if v == None {
      return false, t';
    }
    t' := t'.(rip := v.value);
    ok := true;
  }

  /** The word of `orig_rax`, which is ignored, and the low half of the flags. */
  method ReadFlags(t: TrapFrame, p: seq<byte>) returns (ok: bool, t': TrapFrame)
    requires HexAt(p, 0, 272) && t.rflags < WORD
    ensures ok <==> HexAt(p, 0, 296)
    ensures t' == FlagsLoaded(t, p)
  {
    hide Field, And, Or, HexAt;
    t' := t;
    var v, i := ReadNext(p, 272, 8);
    if v == None {
      return false, t';
    }
    v, i := ReadNext(p, i, 4);
    if v == None {
      return false, t';
    }
    MergeFlags(t.rflags, p, 288);
    t' := t.(rflags := Or(And(t.rflags, Not64(0xFFFF_FFFF)), v.value));
    ok := true;
  }

  /** Selectors and segment bases, which are read and ignored. */
  method SkipRest(p: seq<byte>) returns (ok: bool)
    requires HexAt(p, 0, 296)
    ensures ok <==> HexAt(p, 0, READ)
  {
    hide Field, HexAt;
    var i, v := 296, None;
    for k := 0 to 6
      invariant i == 296 + 8 * k && HexAt(p, 0, i)
    {
      v, i := ReadNext(p, i, 4);
      if v == None {
        return false;
      }
    }
    for k := 0 to 2
      invariant i == 344 + 16 * k && HexAt(p, 0, i)
    {
      v, i := ReadNext(p, i, 8);
      if v == None {
        return false;
      }
    }
    ok := true;
  }

  /** `read_g`: it succeeds exactly on a block of the advertised length whose first 376 characters are digits. The
      registers are assigned one by one, so a failure leaves the ones before the bad digit changed. */
  method ReadG(tf: TrapFrame, payload: seq<byte>) returns (ok: bool, tf': TrapFrame)
    requires tf.rflags < WORD
    ensures ok <==> |payload| == G_HEX_LEN && HexAt(payload, 0, READ)
    ensures ok ==> tf' == Loaded(tf, payload)
    ensures |payload| == G_HEX_LEN ==> tf' == PartlyLoaded(tf, payload)
    ensures |payload| != G_HEX_LEN ==> tf' == tf
  {
    if |payload| != G_HEX_LEN {
      return false, tf;
    }
    AllHexBefore(payload);
    StoppedBefore(LowLoaded(tf, payload), payload);
    StoppedBefore(HighLoaded(LowLoaded(tf, payload), payload), payload);
    if HexAt(payload, 0, READ) {
      AllLoaded(tf, payload);
    }
    hide HexAt, LowLoaded, HighLoaded, FlagsLoaded, Loaded;
    ok, tf' := ReadGprsLow(tf, payload);
    if !ok {
      return;
    }
    ok, tf' := ReadGprsHigh(tf', payload);
    if !ok {
      return;
    }
    LoadedFlags(tf, payload);
    ok, tf' := ReadFlags(tf', payload);
    if !ok {
      return;
    }
    ok := SkipRest(payload);
  }

  lemma AllHexBefore(p: seq<byte>)
    ensures HexAt(p, 0, READ) ==> HexAt(p, 0, 296)
    ensures HexAt(p, 0, 296) ==> HexAt(p, 0, 272)
    ensures HexAt(p, 0, 272) ==> HexAt(p, 0, 128)
  {
  }

  lemma LoadedFlags(t: TrapFrame, p: seq<byte>)
    ensures HighLoaded(LowLoaded(t, p), p).rflags == t.rflags
  {
  }

  /** Replacing the low 32 bits of the flags. */
  lemma MergeFlags(r: nat, p: seq<byte>, i: nat)
    requires r < WORD && HexAt(p, i, 8)
    ensures Or(And(r, Not64(0xFFFF_FFFF)), Field(p, i, 4)) == r / 0x1_0000_0000 * 0x1_0000_0000 + Field(p, i, 4)
  {
    hide And, Or, Field, FromHex;
    var ef := Field(p, i, 4);
    FieldBound(p, i, 4);
    HalfWord();
    Pow2Values();
    AndField(r, 32, 64);
    var high := r / 0x1_0000_0000 * 0x1_0000_0000;
    assert And(r, Not64(0xFFFF_FFFF)) == high;
    OrLow(high, ef, 32);
  }

  lemma FieldBound(p: seq<byte>, i: nat, n: nat)
    requires HexAt(p, i, 2 * n)
    ensures Field(p, i, n) < Pow2(8 * n)
  {
    FromLeBound(DecodeBytes(p, i, n));
  }

  /* ------------------------------ Round trip ------------------------------ */

  lemma {:induction false} WordsAreHex(vs: seq<nat>, n: nat)
    ensures HexAt(Words(vs, n), 0, |Words(vs, n)|)
    decreases |vs|
  {
    hide Word, FromHex;
    if vs != [] {
      var m := |vs| - 1;
      WordsAreHex(vs[..m], n);
      WordRoundTrip([], vs[m], n, []);
      var w := Word(vs[m], n);
      assert [] + w + [] == w;
      HexConcat(Words(vs[..m], n), w);
    }
  }

  lemma HexConcat(a: seq<byte>, b: seq<byte>)
    requires HexAt(a, 0, |a|) && HexAt(b, 0, |b|)
    ensures HexAt(a + b, 0, |a + b|)
  {
    hide FromHex;
    forall k | 0 <= k < |a + b|
      ensures FromHex((a + b)[k]).Some?
    {
      if k >= |a| {
        assert (a + b)[k] == b[k - |a|];
      }
    }
  }

  lemma {:induction false} ZerosAreHex(n: nat)
    ensures HexAt(Zeros(n), 0, n)
  {
    if n != 0 {
      ZerosAreHex(n - 1);
    }
  }

  lemma BlockIsHex(t: TrapFrame)
    ensures HexAt(Block(t), 0, WRITTEN)
  {
    hide FromHex, Words, Zeros, HexAt;
    WordsAreHex(Gprs(t), 8);
    WordsAreHex(Selectors(t), 4);
    ZerosAreHex(232);
    HexConcat(Words(Gprs(t), 8), Words(Selectors(t), 4));
    HexConcat(Words(Gprs(t), 8) + Words(Selectors(t), 4), Zeros(232));
    BlockLength(t);
  }

  ghost predicate FrameOk(t: TrapFrame) {
    && (forall k :: 0 <= k < |Gprs(t)| ==> Gprs(t)[k] < WORD)
    && t.rflags < WORD && t.ss < WORD
  }

  lemma BlockRegister(t: TrapFrame, pad: seq<byte>, k: nat)
    requires FrameOk(t) && k < 17
    ensures HexAt(Block(t) + pad, 16 * k, 16) && Field(Block(t) + pad, 16 * k, 8) == Gprs(t)[k]
  {
    hide FromHex, Words, Zeros, HexAt, Field;
    var after := Words(Selectors(t), 4) + Zeros(232) + pad;
    assert Block(t) + pad == [] + Words(Gprs(t), 8) + after;
    WordsAt([], Gprs(t), 8, after, k);
    Pow2Values();
  }

  lemma BlockFlags(t: TrapFrame, pad: seq<byte>)
    ensures HexAt(Block(t) + pad, 288, 8) && Field(Block(t) + pad, 288, 4) == t.ss % 0x1_0000_0000
    ensures HexAt(Block(t) + pad, 272, 8) && Field(Block(t) + pad, 272, 4) == t.rflags % 0x1_0000_0000
    ensures HexAt(Block(t) + pad, 280, 8) && Field(Block(t) + pad, 280, 4) == t.cs % 0x1_0000_0000
  {
    hide FromHex, Words, Zeros, HexAt, Field;
    var before := Words(Gprs(t), 8);
    assert Block(t) + pad == before + Words(Selectors(t), 4) + (Zeros(232) + pad);
    WordsAt(before, Selectors(t), 4, Zeros(232) + pad, 0);
    WordsAt(before, Selectors(t), 4, Zeros(232) + pad, 1);
    WordsAt(before, Selectors(t), 4, Zeros(232) + pad, 2);
    HalfWord();
  }

  /* ------------------------------ The layout, character by character ------------------------------ */

  lemma {:induction false} HexBytesAt(bs: seq<byte>, k: nat)
    requires k < |bs|
    ensures HexBytes(bs)[2 * k] == Hex4(bs[k] / 16) && HexBytes(bs)[2 * k + 1] == Hex4(bs[k] % 16)
  {
    if k < |bs| - 1 {
      HexBytesAt(bs[..|bs| - 1], k);
    }
  }

  lemma {:induction false} WordsCharacter(vs: seq<nat>, n: nat, k: nat, j: nat)
    requires k < |vs| && j < 2 * n
    ensures 2 * n * k + j < |Words(vs, n)| && Words(vs, n)[2 * n * k + j] == Word(vs[k], n)[j]
  {
    hide Word;
    var m := |vs| - 1;
    assert |Words(vs[..m], n)| == 2 * n * m;
    if k < m {
      WordsCharacter(vs[..m], n, k, j);
    }
  }

  /** The two characters at index i are byte b of the number v. */
  predicate ByteAt(s: seq<byte>, i: nat, v: nat, b: nat) {
    && i + 2 <= |s|
    && s[i] == Hex4(v / Pow2(8 * b) % 0x100 / 16) && s[i + 1] == Hex4(v / Pow2(8 * b) % 0x100 % 16)
  }

  lemma WordCharacters(v: nat, n: nat, b: nat)
    requires b < n
    ensures ByteAt(Word(v, n), 2 * b, v, b)
  {
    HexBytesAt(LeBytes(v, n), b);
    LeByteAt(v, n, b);
  }

  /** The registers of 64 bits, in the debugger's order. */
  function InOrder(t: TrapFrame): seq<nat> {
    [t.rax, t.rbx, t.rcx, t.rdx, t.rsi, t.rdi, t.rbp, t.rsp, t.r8, t.r9, t.r10, t.r11, t.r12, t.r13, t.r14, t.r15, t.rip]
  }

  lemma ByteInside(before: seq<byte>, s: seq<byte>, after: seq<byte>, i: nat, v: nat, b: nat)
    requires ByteAt(s, i, v, b)
    ensures ByteAt(before + s + after, |before| + i, v, b)
  {
    hide Hex4;
  }

  lemma {:induction false} WordsByteAt(vs: seq<nat>, n: nat, k: nat, b: nat)
    requires k < |vs| && b < n
    ensures ByteAt(Words(vs, n), 2 * n * k + 2 * b, vs[k], b)
  {
    hide ByteAt, Word;
    var m := |vs| - 1;
    var (front, back) := (Words(vs[..m], n), Word(vs[m], n));
    assert Words(vs, n) == front + back + [] == [] + front + back;
    if k == m {
      WordCharacters(vs[m], n, b);
      ByteInside(front, back, [], 2 * b, vs[m], b);
    } else {
      WordsByteAt(vs[..m], n, k, b);
      ByteInside([], front, back, 2 * n * k + 2 * b, vs[k], b);
    }
  }

  /** Register k takes sixteen characters from 16 k on, lowest byte first, high digit first. */
  lemma RegisterCharacters(t: TrapFrame, k: nat, b: nat)
    requires k < 17 && b < 8
    ensures ByteAt(Block(t), 16 * k + 2 * b, InOrder(t)[k], b)
  {
    hide ByteAt, Words, Zeros;
    var rest := Words(Selectors(t), 4) + Zeros(232);
    assert InOrder(t) == Gprs(t) && Block(t) == [] + Words(Gprs(t), 8) + rest;
    hide InOrder, Gprs, Block;
    WordsByteAt(Gprs(t), 8, k, b);
    ByteInside([], Words(Gprs(t), 8), rest, 16 * k + 2 * b, Gprs(t)[k], b);
  }

  /** Flags, cs and ss follow in eight characters each, and all that is left is the digit zero. */
  lemma SelectorCharacters(t: TrapFrame, b: nat)
    requires b < 4
    ensures ByteAt(Block(t), 272 + 2 * b, t.rflags, b) && ByteAt(Block(t), 280 + 2 * b, t.cs, b)
    ensures ByteAt(Block(t), 288 + 2 * b, t.ss, b)
  {
    SelectorCharacter(t, 0, b);
    SelectorCharacter(t, 1, b);
    SelectorCharacter(t, 2, b);
    hide Block, ByteAt;
  }

  lemma SelectorCharacter(t: TrapFrame, k: nat, b: nat)
    requires k < 7 && b < 4
    ensures ByteAt(Block(t), 272 + 8 * k + 2 * b, Selectors(t)[k], b)
  {
    hide ByteAt, Words, Zeros;
    assert |Words(Gprs(t), 8)| == 272 && Block(t) == Words(Gprs(t), 8) + Words(Selectors(t), 4) + Zeros(232);
    hide Selectors, Gprs, Block;
    WordsByteAt(Selectors(t), 4, k, b);
    ByteInside(Words(Gprs(t), 8), Words(Selectors(t), 4), Zeros(232), 8 * k + 2 * b, Selectors(t)[k], b);
  }

  lemma RestIsZero(t: TrapFrame, i: nat)
    requires 296 <= i < 560
    ensures |Block(t)| == 560 && Block(t)[i] == '0' as int
  {
    hide Words, Word, Zeros;
    assert |Words(Gprs(t), 8)| == 272 && |Words(Selectors(t), 4)| == 56;
    if i < 328 {
      var k, j := (i - 272) / 8, (i - 272) % 8;
      WordsCharacter(Selectors(t), 4, k, j);
      assert Selectors(t)[k] == 0;
      ZeroWord(4);
      ZerosAt(8, j);
    } else {
      ZerosAt(232, i - 328);
    }
  }

  lemma {:induction false} ZerosAt(n: nat, i: nat)
    requires i < n
    ensures Zeros(n)[i] == '0' as int
  {
    if i < n - 1 {
      ZerosAt(n - 1, i);
    }
  }

  /** Frame u with the general registers and RIP of t, and the low half of t's ss for the low half of its flags. */
  function Merged(u: TrapFrame, t: TrapFrame): TrapFrame {
    t.(vec := u.vec, err := u.err, cs := u.cs, ss := u.ss,
       rflags := u.rflags / 0x1_0000_0000 * 0x1_0000_0000 + t.ss % 0x1_0000_0000)
  }

  /** Loading the block of frame t, padded to its advertised length, into any frame u succeeds and replaces every
      general register and RIP by that of t; the low half of the flags comes from the place of ss. */
  lemma WriteThenRead(t: TrapFrame, u: TrapFrame, pad: seq<byte>, p: seq<byte>)
    requires FrameOk(t) && |pad| == G_HEX_LEN - WRITTEN && p == Block(t) + pad
    ensures |p| == G_HEX_LEN && HexAt(p, 0, READ) && Loaded(u, p) == Merged(u, t) && Gprs(Loaded(u, p)) == Gprs(t)
  {
    hide FromHex, Block, Field;
    BlockLength(t);
    BlockIsHex(t);
    BlockFlags(t, pad);
    BlockRegister(t, pad, 0);
    BlockRegister(t, pad, 1);
    BlockRegister(t, pad, 2);
    BlockRegister(t, pad, 3);
    BlockRegister(t, pad, 4);
    BlockRegister(t, pad, 5);
    BlockRegister(t, pad, 6);
    BlockRegister(t, pad, 7);
    BlockRegister(t, pad, 8);
    BlockRegister(t, pad, 9);
    BlockRegister(t, pad, 10);
    BlockRegister(t, pad, 11);
    BlockRegister(t, pad, 12);
    BlockRegister(t, pad, 13);
    BlockRegister(t, pad, 14);
    BlockRegister(t, pad, 15);
    BlockRegister(t, pad, 16);
  }

  /** The whole frame survives the round trip if and only if flags and ss agree in their low halves. */
  lemma RoundTripIffFlagsMatch(t: TrapFrame, pad: seq<byte>, p: seq<byte>)
    requires FrameOk(t) && |pad| == G_HEX_LEN - WRITTEN && p == Block(t) + pad
    ensures HexAt(p, 0, READ) && (Loaded(t, p) == t <==> t.rflags % 0x1_0000_0000 == t.ss % 0x1_0000_0000)
  {
    hide Block, Loaded;
    WriteThenRead(t, t, pad, p);
  }
}

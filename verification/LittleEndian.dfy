/** Little-endian words. */
module LittleEndian {

  import opened Bits

  /** `to_le_bytes` of the low n bytes of v. */
  function LeBytes(v: nat, n: nat): (bs: seq<byte>)
    ensures |bs| == n
  {
    if n == 0 then [] else [v % 0x100] + LeBytes(v / 0x100, n - 1)
  }

  function FromLe(bs: seq<byte>): nat {
    if bs == [] then 0 else bs[0] + 0x100 * FromLe(bs[1..])
  }

  /** Byte k is the k-th place of v to the base 256. */
  lemma {:induction false} LeByteAt(v: nat, n: nat, k: nat)
    requires k < n
    ensures LeBytes(v, n)[k] == v / Pow2(8 * k) % 0x100
  {
    if k > 0 {
      LeByteAt(v / 0x100, n - 1, k - 1);
      Pow2Add(8, 8 * (k - 1));
      assert Pow2(8) == 0x100;
      DivTwice(v, 0x100, Pow2(8 * (k - 1)));
    }
  }

  /** A word of four bytes, and one of eight, written out. */
  lemma FourBytes(bs: seq<byte>)
    requires |bs| == 4
    ensures FromLe(bs) == bs[0] as int + 0x100 * (bs[1] as int) + 0x1_0000 * (bs[2] as int) + 0x100_0000 * (bs[3] as int)
  {
    Lowest(bs);
    Lowest(bs[1..]);
    Lowest(bs[2..]);
    Lowest(bs[3..]);
    assert bs[4..] == [];
  }

  lemma EightBytes(bs: seq<byte>)
    requires |bs| == 8
    ensures FromLe(bs) == FromLe(bs[..4]) + 0x1_0000_0000 * FromLe(bs[4..])
  {
    FourBytes(bs[..4]);
    Lowest(bs);
    Lowest(bs[1..]);
    Lowest(bs[2..]);
    Lowest(bs[3..]);
    hide FromLe;
  }

  lemma Lowest(bs: seq<byte>)
    requires bs != []
    ensures FromLe(bs) == bs[0] as int + 0x100 * FromLe(bs[1..])
    ensures |bs| > 1 ==> bs[1..][1..] == bs[2..]
  {
  }

  lemma {:induction false} LeRoundTrip(v: nat, n: nat)
    ensures FromLe(LeBytes(v, n)) == v % Pow2(8 * n)
    decreases n
  {
    if n != 0 {
      LeRoundTrip(v / 0x100, n - 1);
      Pow2Add(8, 8 * (n - 1));
      assert Pow2(8) == 0x100;
      ModSplit(v, 0x100, Pow2(8 * (n - 1)));
    }
  }

  lemma {:induction false} FromLeBound(bs: seq<byte>)
    ensures FromLe(bs) < Pow2(8 * |bs|)
  {
    if bs != [] {
      FromLeBound(bs[1..]);
      Pow2Add(8, 8 * (|bs| - 1));
      assert Pow2(8) == 0x100;
    }
  }

  lemma HalfWord()
    ensures Pow2(32) == 0x1_0000_0000
  {
    assert Pow2(8) == 0x100;
    Pow2Add(8, 8);
    Pow2Add(16, 16);
  }
}

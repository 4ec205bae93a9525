/** Bitwise operations on unsigned words held as naturals, and the arithmetic they amount to
    for the masks and flag words the loader and the kernel use. */
module Bits {

  const WORD: nat := 0x1_0000_0000_0000_0000

  type byte = b: nat | b < 0x100

  function Pow2(k: nat): (r: nat)
    ensures r >= 1
  {
    if k == 0 then 1 else 2 * Pow2(k - 1)
  }

  function And(x: nat, y: nat): nat {
    if x == 0 then 0 else (x % 2) * (y % 2) + 2 * And(x / 2, y / 2)
  }

  function Or(x: nat, y: nat): nat
    decreases x + y
  {
    if x == 0 && y == 0 then 0
    else (if x % 2 == 1 || y % 2 == 1 then 1 else 0) + 2 * Or(x / 2, y / 2)
  }

  /** Sum of bytes with wrap-around: the checksum of packets and of ACPI tables. */
  function Sum(bs: seq<byte>): byte {
    if bs == [] then 0 else (Sum(bs[..|bs| - 1]) + bs[|bs| - 1]) % 0x100
  }

  /** The plain sum of bytes. */
  function Total(bs: seq<byte>): nat {
    if bs == [] then 0 else Total(bs[..|bs| - 1]) + bs[|bs| - 1]
  }

  /** The wrapping sum is the plain sum modulo 256. */
  lemma {:induction false} SumIsTotal(bs: seq<byte>)
    ensures Sum(bs) == Total(bs) % 0x100
  {
    if bs != [] {
      SumIsTotal(bs[..|bs| - 1]);
      ModPlus(Total(bs[..|bs| - 1]), bs[|bs| - 1]);
    }
  }

  lemma ModPlus(t: nat, b: nat)
    ensures (t % 0x100 + b) % 0x100 == (t + b) % 0x100
  {
  }

  lemma {:induction false} TotalSplit(a: seq<byte>, b: seq<byte>)
    ensures Total(a + b) == Total(a) + Total(b)
  {
    if b == [] {
      assert a + b == a;
    } else {
      assert (a + b)[..|a + b| - 1] == a + b[..|b| - 1];
      TotalSplit(a, b[..|b| - 1]);
    }
  }

  /** A different byte makes a different checksum. */
  lemma ChangedByte(bs: seq<byte>, k: nat, b: byte)
    requires k < |bs| && b != bs[k]
    ensures Total(bs[k := b]) % 0x100 != Total(bs) % 0x100
  {
    var (x, y) := (bs[..k], bs[k + 1..]);
    assert bs == x + [bs[k]] + y && bs[k := b] == x + [b] + y;
    TotalSplit(x + [bs[k]], y);
    TotalSplit(x + [b], y);
    TotalSplit(x, [bs[k]]);
    TotalSplit(x, [b]);
    TotalOne(b);
    TotalOne(bs[k]);
    hide Total;
    assert Total(bs[k := b]) - Total(bs) == b - bs[k];
  }

  lemma TotalOne(b: byte)
    ensures Total([b]) == b
  {
    assert [b][..0] == [];
  }

  /** `!x` on a 64-bit word. */
  function Not64(x: nat): nat
    requires x < WORD
  {
    WORD - 1 - x
  }

  /** `(x + m - 1) & !(m - 1)` with `m = max(a, 1)`: the loader's `align_up`. */
  function AlignUp(x: nat, a: nat): nat
    requires a < WORD
  {
    var m := if a < 1 then 1 else a;
    And(x + m - 1, Not64(m - 1))
  }

  /** `x & !(a - 1)`. */
  function AlignDown(x: nat, a: nat): nat
    requires 1 <= a < WORD
  {
    And(x, Not64(a - 1))
  }

  lemma DivModUnique(x: nat, d: nat, q: nat, r: nat)
    requires x == d * q + r && r < d
    ensures x / d == q && x % d == r
  {
    if x / d > q {
      MulAtLeast(d, q + 1, x / d);
    } else if x / d < q {
      MulAtLeast(d, x / d + 1, q);
    }
  }

  lemma {:induction false} MulAtLeast(d: nat, a: nat, b: nat)
    requires a <= b
    ensures d * a <= d * b
    decreases b
  {
    if a < b {
      MulAtLeast(d, a, b - 1);
    }
  }

  lemma DivTwice(v: nat, a: nat, m: nat)
    requires a > 0 && m > 0
    ensures a * m > 0 && v / a / m == v / (a * m)
  {
    MulAtLeast(a, 1, m);
    Nested(v, a, m, v / a, v % a, v / a / m, v / a % m);
    DivModUnique(v, a * m, v / a / m, a * (v / a % m) + v % a);
  }

  lemma ModSplit(v: nat, a: nat, m: nat)
    requires a > 0 && m > 0
    ensures a * m > 0 && v % (a * m) == v % a + a * (v / a % m)
  {
    MulAtLeast(a, 1, m);
    Nested(v, a, m, v / a, v % a, v / a / m, v / a % m);
    DivModUnique(v, a * m, v / a / m, a * (v / a % m) + v % a);
  }

  lemma Nested(v: nat, a: nat, m: nat, u: nat, o: nat, q: nat, r: nat)
    requires v == a * u + o && o < a && u == m * q + r && r < m
    ensures v == a * m * q + (a * r + o) && a * r + o < a * m
  {
    assert a * (m * q + r) == a * (m * q) + a * r;
    assert a * (m * q) == a * m * q;
    MulAtLeast(a, r + 1, m);
    assert a * (r + 1) == a * r + a;
  }

  lemma ModDouble(x: nat, m: nat)
    requires m > 0
    ensures x % (2 * m) == x % 2 + 2 * (x / 2 % m)
    ensures x / (2 * m) == x / 2 / m
  {
    var q, r := x / 2 / m, x / 2 % m;
    assert x / 2 == m * q + r;
    assert x == 2 * m * q + (2 * r + x % 2);
    DivModUnique(x, 2 * m, q, 2 * r + x % 2);
  }

  lemma AndDouble(x: nat, z: nat)
    ensures And(x, 2 * z) == 2 * And(x / 2, z)
    ensures And(x, 2 * z + 1) == x % 2 + 2 * And(x / 2, z)
  {
    hide And;
    AndUnfold(x, z, 0);
    AndUnfold(x, z, 1);
  }

  lemma AndUnfold(x: nat, z: nat, b: nat)
    requires b < 2
    ensures And(x, 2 * z + b) == (if b == 0 then 0 else x % 2) + 2 * And(x / 2, z)
  {
    var y := 2 * z + b;
    assert y / 2 == z && y % 2 == b;
    assert And(x, y) == (x % 2) * (y % 2) + 2 * And(x / 2, y / 2);
  }

  /** Masking with ones in bits k..n-1. */
  lemma {:induction false} AndField(x: nat, k: nat, n: nat)
    requires k <= n
    ensures Pow2(k) <= Pow2(n)
    ensures And(x, Pow2(n) - Pow2(k)) == x % Pow2(n) - x % Pow2(k)
    decreases n
  {
    hide And;
    if n == 0 {
      AndZero(x);
    } else {
      AndField(x / 2, if k == 0 then 0 else k - 1, n - 1);
      FieldStep(x, if k == 0 then 1 else Pow2(k - 1), Pow2(n - 1), k == 0);
    }
  }

  lemma FieldStep(x: nat, a: nat, b: nat, lowest: bool)
    requires 1 <= a <= b && (lowest ==> a == 1)
    requires And(x / 2, b - a) == x / 2 % b - x / 2 % a
    ensures And(x, 2 * b - (if lowest then 1 else 2 * a)) == x % (2 * b) - x % (if lowest then 1 else 2 * a)
  {
    hide And;
    ModDouble(x, b);
    ModDouble(x, a);
    AndDouble(x, b - a);
  }

  lemma {:induction false} AndZero(x: nat)
    ensures And(x, 0) == 0
  {
    if x != 0 {
      AndZero(x / 2);
    }
  }

  /** Testing one bit. */
  lemma {:induction false} AndBit(x: nat, k: nat)
    ensures And(x, Pow2(k)) == x / Pow2(k) % 2 * Pow2(k)
  {
    if k == 0 {
      AndZero(x / 2);
    } else {
      AndBit(x / 2, k - 1);
      ModDouble(x, Pow2(k - 1));
    }
  }

  lemma {:induction false} OrZero(x: nat)
    ensures Or(x, 0) == x
  {
    if x != 0 {
      OrZero(x / 2);
    }
  }

  lemma {:induction false} OrComm(x: nat, y: nat)
    ensures Or(x, y) == Or(y, x)
    decreases x + y
  {
    if x + y != 0 {
      OrComm(x / 2, y / 2);
    }
  }

  /** Setting bits below a clear field is addition. */
  lemma {:induction false} OrLow(x: nat, y: nat, k: nat)
    requires x % Pow2(k) == 0 && y < Pow2(k)
    ensures Or(x, y) == x + y
    decreases k
  {
    if k == 0 {
      OrZero(x);
    } else {
      ModDouble(x, Pow2(k - 1));
      OrLow(x / 2, y / 2, k - 1);
    }
  }

  lemma {:induction false} OrAssoc(x: nat, y: nat, z: nat)
    ensures Or(Or(x, y), z) == Or(x, Or(y, z))
    decreases x + y + z
  {
    if x + y + z != 0 {
      OrAssoc(x / 2, y / 2, z / 2);
    }
  }

  /** Rounding down to a power of two clears the remainder, on every word. */
  lemma AlignDownIsFloor(x: nat, k: nat)
    requires k < 64 && x < WORD
    ensures Pow2(k) < WORD
    ensures AlignDown(x, Pow2(k)) == x - x % Pow2(k)
  {
    hide And;
    Pow2Below(k);
    AndField(x, k, 64);
    assert x % Pow2(64) == x;
    assert Not64(Pow2(k) - 1) == Pow2(64) - Pow2(k);
  }

  lemma Pow2Below(k: nat)
    requires k < 64
    ensures Pow2(k) < WORD == Pow2(64)
  {
    Pow2Values();
    Pow2Less(k, 64);
  }

  lemma {:induction false} Pow2Add(a: nat, b: nat)
    ensures Pow2(a + b) == Pow2(a) * Pow2(b)
  {
    if a != 0 {
      Pow2Add(a - 1, b);
      MulRegroup(Pow2(a - 1), Pow2(b));
    }
  }

  lemma MulRegroup(p: nat, q: nat)
    ensures 2 * (p * q) == 2 * p * q
  {
  }

  lemma Pow2Small()
    ensures Pow2(0) == 1 && Pow2(4) == 0x10 && Pow2(7) == 0x80 && Pow2(9) == 0x200 && Pow2(12) == 0x1000
  {
    assert Pow2(2) == 4 && Pow2(4) == 16 && Pow2(6) == 64 && Pow2(8) == 0x100 && Pow2(10) == 0x400;
  }

  lemma Pow2Values()
    ensures Pow2(0) == 1
    ensures Pow2(7) == 0x80 && Pow2(9) == 0x200 && Pow2(12) == 0x1000 && Pow2(21) == 0x20_0000
    ensures Pow2(30) == 0x4000_0000 && Pow2(39) == 0x80_0000_0000 && Pow2(48) == 0x1_0000_0000_0000
    ensures Pow2(52) == 0x10_0000_0000_0000 && Pow2(64) == WORD
  {
    hide Pow2;
    Pow2Small();
    Pow2Add(9, 12);
    Pow2Add(9, 21);
    Pow2Add(9, 30);
    Pow2Add(9, 39);
    Pow2Add(4, 48);
    Pow2Add(12, 52);
  }

  lemma {:induction false} Pow2Less(k: nat, n: nat)
    requires k < n
    ensures Pow2(k) < Pow2(n)
    decreases n
  {
    if k < n - 1 {
      Pow2Less(k, n - 1);
    }
  }

  /** Rounding up gives the least multiple that is not below x, when the sum does not wrap. */
  lemma AlignUpIsCeil(x: nat, k: nat)
    requires k < 64 && x + Pow2(k) - 1 < WORD
    ensures Pow2(k) < WORD
    ensures var u := AlignUp(x, Pow2(k));
            u % Pow2(k) == 0 && x <= u < x + Pow2(k)
  {
    hide And, Pow2;
    Pow2Below(k);
    var y := x + Pow2(k) - 1;
    AlignDownIsFloor(y, k);
    FloorIsMultiple(y, Pow2(k));
    var u := AlignDown(y, Pow2(k));
    assert AlignUp(x, Pow2(k)) == u;
  }

  lemma FloorIsMultiple(y: nat, d: nat)
    requires d > 0
    ensures y - d < y - y % d <= y && (y - y % d) % d == 0
  {
    DivModUnique(y - y % d, d, y / d, 0);
  }
}

/** Hexadecimal digits, byte pairs and numbers, as the debugger stub writes and reads them. */
module Hex {

  import opened Wrappers
  import opened Bits

  function Hex4(n: nat): byte
    requires n < 16
  {
    if n < 10 then 0x30 + n else 0x61 + (n - 10)
  }

  function FromHex(h: byte): (r: Option<nat>)
    ensures r.Some? ==> r.value < 16
  {
    if 0x30 <= h <= 0x39 then Some(h - 0x30)
    else if 0x61 <= h <= 0x66 then Some(10 + (h - 0x61))
    else if 0x41 <= h <= 0x46 then Some(10 + (h - 0x41))
    else None
  }

  /** The sixteen digits are the usual characters, in lower case. */
  lemma DigitCharacters(n: nat)
    requires n < 16
    ensures Hex4(n) == "0123456789abcdef"[n] as int
  {
  }

  /** Digits are read in both cases, and nothing else is a digit. */
  lemma DigitValues(h: byte)
    ensures var c := h as char;
            FromHex(h) == if '0' <= c <= '9' then Some(c as int - '0' as int)
                          else if 'a' <= c <= 'f' then Some(10 + (c as int - 'a' as int))
                          else if 'A' <= c <= 'F' then Some(10 + (c as int - 'A' as int))
                          else None
  {
  }

  /** Upper- and lower-case digits have the same value. */
  lemma BothCases(n: nat)
    requires 10 <= n < 16
    ensures FromHex("0123456789ABCDEF"[n] as int) == FromHex("0123456789abcdef"[n] as int) == Some(n)
  {
    assert "0123456789ABCDEF"[n] as int == 0x41 + (n - 10);
    assert "0123456789abcdef"[n] as int == 0x61 + (n - 10);
  }

  lemma DigitRoundTrip(n: nat)
    requires n < 16
    ensures FromHex(Hex4(n)) == Some(n)
  {
  }

  /** The two digits of a byte, high one first. */
  function HexPair(v: byte): (s: seq<byte>)
    ensures |s| == 2
  {
    [Hex4(v / 16), Hex4(v % 16)]
  }

  /** `(hi << 4) | lo` of two digits. */
  function Join(hi: nat, lo: nat): (v: byte)
    requires hi < 16 && lo < 16
  {
    NibbleOr(hi, lo); Or(hi * 16, lo)
  }

  lemma NibbleOr(hi: nat, lo: nat)
    requires hi < 16 && lo < 16
    ensures Or(hi * 16, lo) == hi * 16 + lo
  {
    assert Pow2(4) == 16;
    OrLow(hi * 16, lo, 4);
  }

  lemma PairRoundTrip(v: byte)
    ensures var p := HexPair(v);
            FromHex(p[0]).Some? && FromHex(p[1]).Some? && Join(FromHex(p[0]).value, FromHex(p[1]).value) == v
  {
    DigitRoundTrip(v / 16);
    DigitRoundTrip(v % 16);
    NibbleOr(v / 16, v % 16);
  }

  /* ------------------------------ Numbers ------------------------------ */

  /** The digits of v, most significant first, without leading zeros. */
  function Digits(v: nat): (s: seq<byte>)
    ensures s != []
  {
    if v < 16 then [Hex4(v)] else Digits(v / 16) + [Hex4(v % 16)]
  }

  /** Value of a digit string, as the parser accumulates it in a 64-bit word; None if there is a non-digit. */
  function Value(s: seq<byte>): (r: Option<nat>)
    ensures r.Some? ==> r.value < WORD
  {
    if s == [] then Some(0)
    else
      var n := |s| - 1;
      var hi := Value(s[..n]);
      var lo := FromHex(s[n]);
      if hi == None || lo == None then None
      else Some((hi.value * 16 + lo.value) % WORD)
  }

  lemma {:induction false} DigitsRoundTrip(v: nat)
    requires v < WORD
    ensures Value(Digits(v)) == Some(v)
  {
    var s := Digits(v);
    if v < 16 {
      DigitRoundTrip(v);
      assert s[..|s| - 1] == [];
    } else {
      DigitsRoundTrip(v / 16);
      DigitRoundTrip(v % 16);
      assert s[..|s| - 1] == Digits(v / 16);
    }
  }

  /** Counted from the right, digit k of v is the k-th hexadecimal place of v, and there are no more than needed. */
  lemma {:induction false} DigitAt(v: nat, k: nat)
    requires k < |Digits(v)|
    ensures Digits(v)[|Digits(v)| - 1 - k] == Hex4(v / Pow2(4 * k) % 16)
    ensures k > 0 ==> v / Pow2(4 * k) > 0
  {
    if v >= 16 && k > 0 {
      DigitAt(v / 16, k - 1);
      Pow2Add(4, 4 * (k - 1));
      assert Pow2(4) == 16;
      DivTwice(v, 16, Pow2(4 * (k - 1)));
      if k == 1 {
        assert v / 16 / Pow2(0) == v / 16;
      }
    }
  }

  /** `(n << 4) | v` on a 64-bit word. */
  lemma ShiftIn(n: nat, v: nat)
    requires n < WORD && v < 16
    ensures Or(n * 16 % WORD, v) == (n * 16 + v) % WORD
  {
    hide Or, Pow2;
    var q, r := n * 16 / WORD, n * 16 % WORD;
    Pow2Small();
    Multiple16(n, q, r);
    OrLow(r, v, 4);
    DivModUnique(n * 16 + v, WORD, q, r + v);
  }

  lemma Multiple16(n: nat, q: nat, r: nat)
    requires n * 16 == WORD * q + r && r < WORD
    ensures r % 16 == 0 && r + 15 < WORD
  {
    var k := n - 0x1000_0000_0000_0000 * q;
    assert r == 16 * k;
  }
}

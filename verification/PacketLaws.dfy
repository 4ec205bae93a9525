/** The remote protocol's formats, character by character and in plain arithmetic (section E.1 of Debugging with GDB). */
module PacketLaws {

  import opened Wrappers
  import opened Bits
  import opened Hex
  import opened Packets

  /** The bytes are the characters of the text. */
  predicate Spells(bs: seq<byte>, text: string) {
    |bs| == |text| && forall i :: 0 <= i < |bs| ==> bs[i] == text[i] as int
  }

  /** The number that two characters stand for. */
  function PairValue(h1: byte, h2: byte): Option<nat> {
    if FromHex(h1).Some? && FromHex(h2).Some? then Some(FromHex(h1).value * 16 + FromHex(h2).value) else None
  }

  lemma PairOf(v: byte)
    ensures |HexPair(v)| == 2 && PairValue(HexPair(v)[0], HexPair(v)[1]) == Some(v)
  {
    PairDigits(v);
    DigitRoundTrip(v / 16);
    DigitRoundTrip(v % 16);
  }

  lemma PairDigits(v: byte)
    ensures HexPair(v) == [Hex4(v / 16), Hex4(v % 16)]
  {
  }

  /* ------------------------------ Frames ------------------------------ */

  /** A frame is a dollar sign, the payload, a hash mark, and the sum of the payload modulo 256 in two digits. */
  lemma FrameShape(p: seq<byte>)
    ensures |Frame(p)| == |p| + 4
    ensures Spells(Frame(p)[..1], "$") && Frame(p)[1..|p| + 1] == p && Spells(Frame(p)[|p| + 1..|p| + 2], "#")
    ensures PairValue(Frame(p)[|p| + 2], Frame(p)[|p| + 3]) == Some(Total(p) % 0x100)
  {
    hide HexPair, Sum, Total, PairValue;
    PairOf(Sum(p));
    SumIsTotal(p);
    var f := Frame(p);
    assert f[|p| + 2] == HexPair(Sum(p))[0] && f[|p| + 3] == HexPair(Sum(p))[1];
  }

  lemma MatchesTotal(h1: byte, h2: byte, bs: seq<byte>)
    ensures Matches(h1, h2, Sum(bs)) <==> PairValue(h1, h2) == Some(Total(bs) % 0x100)
  {
    hide Sum, Total, Join, FromHex;
    SumIsTotal(bs);
    if FromHex(h1).Some? && FromHex(h2).Some? {
      JoinIs(FromHex(h1).value, FromHex(h2).value);
    }
  }

  lemma JoinIs(hi: nat, lo: nat)
    requires hi < 16 && lo < 16
    ensures Join(hi, lo) == hi * 16 + lo
  {
    hide Or;
    NibbleOr(hi, lo);
  }

  /** A frame of at most 0x2000 bytes is accepted if and only if its two digits are the sum modulo 256, and is answered
      with a plus or a minus, or not at all. */
  lemma AcceptedIff(body: seq<byte>, h1: byte, h2: byte, rest: seq<byte>, noAck: bool)
    requires '#' as int !in body && |body| <= 0x2000
    ensures var input := ['$' as int] + body + ['#' as int, h1, h2] + rest;
            if PairValue(h1, h2) == Some(Total(body) % 0x100) then
              Receive(input, noAck) == Packet(body, rest, if noAck then [] else ['+' as int])
            else
              Receive(input, noAck) == Prepend(if noAck then [] else ['-' as int], Receive(rest, noAck))
  {
    hide Sum, Total, PairValue, Matches, Receive;
    ReceiveFrame(body, h1, h2, rest, noAck);
    MatchesTotal(h1, h2, body);
  }

  /** Of a longer frame the first 0x2000 bytes are kept, and checked. */
  lemma OverlongFrame(body: seq<byte>, h1: byte, h2: byte, rest: seq<byte>, noAck: bool)
    requires '#' as int !in body && |body| > 0x2000
    ensures var input := ['$' as int] + body + ['#' as int, h1, h2] + rest;
            PairValue(h1, h2) == Some(Total(body[..0x2000]) % 0x100) ==>
              Receive(input, noAck) == Packet(body[..0x2000], rest, if noAck then [] else ['+' as int])
  {
    hide Sum, Total, PairValue, Matches, Receive;
    ReceiveFrame(body, h1, h2, rest, noAck);
    MatchesTotal(h1, h2, body[..0x2000]);
  }

  /** An interrupt byte between frames is a packet of its own, after whatever noise. */
  lemma {:induction false} InterruptIsPacket(xs: seq<Noise>, rest: seq<byte>, noAck: bool)
    requires forall i :: 0 <= i < |xs| ==> NoiseOk(xs[i])
    ensures Receive(Bytes(xs) + [0x03] + rest, noAck) == Packet([0x03], rest, if noAck then [] else Nacks(xs))
  {
    hide Receive, NoiseBytes, NoiseOk, Bytes, Nacks;
    if xs == [] {
      InterruptNow(xs, rest, noAck);
    } else {
      InterruptIsPacket(xs[1..], rest, noAck);
      NacksCons(xs);
      Regroup(NoiseBytes(xs[0]), Bytes(xs[1..]), [0x03], rest);
      ReceiveNoise(xs[0], Bytes(xs[1..]) + [0x03] + rest, noAck);
    }
  }

  lemma InterruptNow(xs: seq<Noise>, rest: seq<byte>, noAck: bool)
    requires xs == []
    ensures Receive(Bytes(xs) + [0x03] + rest, noAck) == Packet([0x03], rest, if noAck then [] else Nacks(xs))
  {
    hide Receive;
    assert Bytes(xs) + [0x03] + rest == [0x03] + rest;
    UnfoldReceive([0x03] + rest, noAck);
    assert ([0x03] + rest)[1..] == rest;
  }

  /* ------------------------------ Numbers ------------------------------ */

  /** A number is found exactly where a digit stands. */
  lemma NumberFoundIff(s: seq<byte>, off: nat)
    ensures ParseHex(s, off).Some? <==> off < |s| && FromHex(s[off]).Some?
  {
    hide FromHex, Value;
    if off < |s| {
      assert RunEnd(s, off) == off <==> FromHex(s[off]) == None;
    }
  }

  /** From off on, a run of digits is followed at i by a comma and another digit. */
  predicate CommaAt(s: seq<byte>, off: nat, i: nat) {
    && off < i && i + 1 < |s| && (forall k :: off <= k < i ==> FromHex(s[k]).Some?)
    && s[i] == ',' as int && FromHex(s[i + 1]).Some?
  }

  /** "addr,len" is found exactly where a run of digits is followed by a comma and another digit. */
  lemma PairFoundIff(s: seq<byte>, off: nat)
    ensures ParsePair(s, off).Some? <==> exists i :: CommaAt(s, off, i)
  {
    hide FromHex, Value;
    NotDigit();
    NumberFoundIff(s, off);
    if off < |s| && FromHex(s[off]).Some? {
      var j := RunEnd(s, off);
      NumberFoundIff(s, j + 1);
      if ParsePair(s, off).Some? {
        assert CommaAt(s, off, j);
      }
      if i :| CommaAt(s, off, i) {
        RunIs(s, off, i);
      }
    }
  }

  lemma NotDigit()
    ensures FromHex(COMMA) == None && COMMA == ',' as int
  {
  }

  /* ------------------------------ The stop reply ------------------------------ */

  /** Signal, thread and program counter can be read back out of a stop reply, each where its label says. */
  lemma StopReplyReads(sig: byte, tid: nat, pc: nat)
    requires tid < WORD && pc < WORD
    ensures var r := StopReply(sig, tid, pc);
            var (n, m) := (|Digits(tid)|, |Digits(pc)|);
            && |r| == 11 + n + 4 + m + 1
            && Spells(r[..1], "T") && PairValue(r[1], r[2]) == Some(sig)
            && Spells(r[3..11], ";thread:") && ParseHex(r, 11) == Some((tid, n))
            && Spells(r[11 + n..15 + n], ";pc:") && ParseHex(r, 15 + n) == Some((pc, m))
            && Spells(r[15 + n + m..], ";")
  {
    hide Digits, HexPair, FromHex, PairValue, ParseHex, Spells, StopReply;
    var r := StopReply(sig, tid, pc);
    var (head, tail) := ([LETTER_T] + HexPair(sig) + THREAD, PC + Digits(pc) + [SEMICOLON]);
    PairOf(sig);
    Labels();
    StopReplyParts(sig, tid, pc);
    NumberRoundTrip(head, tid, tail);
    NumberRoundTrip(head + Digits(tid) + PC, pc, [SEMICOLON]);
  }

  lemma StopReplyParts(sig: byte, tid: nat, pc: nat)
    ensures var r := StopReply(sig, tid, pc);
            var (n, m) := (|Digits(tid)|, |Digits(pc)|);
            var (head, tail) := ([LETTER_T] + HexPair(sig) + THREAD, PC + Digits(pc) + [SEMICOLON]);
            && |r| == 11 + n + 4 + m + 1 && |head| == 11 && tail[0] == PC[0] == SEMICOLON && |PC| == 4
            && r[..1] == [LETTER_T] && r[1] == HexPair(sig)[0] && r[2] == HexPair(sig)[1]
            && r[3..11] == THREAD && r[11 + n..15 + n] == PC && r[15 + n + m..] == [SEMICOLON]
            && r == head + Digits(tid) + tail && r == head + Digits(tid) + PC + Digits(pc) + [SEMICOLON]
  {
    hide Digits, HexPair;
    var (head, tail) := ([LETTER_T] + HexPair(sig) + THREAD, PC + Digits(pc) + [SEMICOLON]);
    assert StopReply(sig, tid, pc) == head + Digits(tid) + tail;
  }

  lemma Labels()
    ensures Spells([LETTER_T], "T") && Spells(THREAD, ";thread:") && Spells(PC, ";pc:") && Spells([SEMICOLON], ";")
    ensures FromHex(SEMICOLON) == None && PC[0] == SEMICOLON
  {
  }
}

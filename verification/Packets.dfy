/** Packet framing of the GDB remote serial protocol (section E.1 of Debugging with GDB): sending, receiving with
    acknowledgement, and the numbers inside packets. */
module Packets {

  import opened Wrappers
  import opened Bits
  import opened Hex

  const INBUF_LEN: nat := 0x2000
  const DOLLAR: byte := 0x24
  const HASH: byte := 0x23
  const PLUS: byte := 0x2B
  const MINUS: byte := 0x2D
  const CTRL_C: byte := 0x03
  const COMMA: byte := 0x2C

  /** The serial line: bytes still to arrive, and bytes sent. */
  class Link {
    var input: seq<byte>
    var output: seq<byte>

    constructor (input: seq<byte>)
      ensures this.input == input && output == []
    {
      this.input, output := input, [];
    }

    /** `getc_block`; None stands for waiting for a byte that never comes. */
    method Getc() returns (c: Option<byte>)
      modifies this`input
      ensures old(input) == [] ==> c == None && input == []
      ensures old(input) != [] ==> c == Some(old(input)[0]) && input == old(input)[1..]
    {
      if input == [] {
        c := None;
      } else {
        c := Some(input[0]);
        input := input[1..];
      }
    }

    method Putc(b: byte)
      modifies this`output
      ensures output == old(output) + [b]
    {
      output := output + [b];
    }
  }

  /* ------------------------------ Frames ------------------------------ */

  function Frame(p: seq<byte>): seq<byte> {
    [DOLLAR] + p + [HASH] + HexPair(Sum(p))
  }

  method SendPkt(link: Link, payload: seq<byte>)
    modifies link`output
    ensures link.output == old(link.output) + Frame(payload)
  {
    ghost var before := link.output;
    link.Putc(DOLLAR);
    var cks: byte := 0;
    for i := 0 to |payload|
      invariant link.output == before + [DOLLAR] + payload[..i] && cks == Sum(payload[..i])
    {
      link.Putc(payload[i]);
      cks := (cks + payload[i]) % 0x100;
      assert payload[..i + 1] == payload[..i] + [payload[i]];
    }
    assert payload[..|payload|] == payload;
    link.Putc(HASH);
    link.Putc(Hex4(cks / 16));
    link.Putc(Hex4(cks % 16));
  }

  /* ------------------------------ Receiving ------------------------------ */

  /** How a receive ends: with a packet, the bytes left and the acknowledgements sent, or waiting for more input. */
  datatype Received = Packet(payload: seq<byte>, rest: seq<byte>, replies: seq<byte>) | Blocked(replies: seq<byte>)

  /** Index of the first '#' at or after i, or |s|. */
  function HashFrom(s: seq<byte>, i: nat): (j: nat)
    requires i <= |s|
    ensures i <= j <= |s| && (j < |s| ==> s[j] == HASH) && forall k :: i <= k < j ==> s[k] != HASH
    decreases |s| - i
  {
    if i == |s| || s[i] == HASH then i else HashFrom(s, i + 1)
  }

  /** What the input buffer keeps of a body. */
  function Stored(body: seq<byte>): (s: seq<byte>)
    ensures |s| <= INBUF_LEN
  {
    if |body| <= INBUF_LEN then body else body[..INBUF_LEN]
  }

  /** The two characters after '#' are the checksum. */
  predicate Matches(h1: byte, h2: byte, cks: byte) {
    FromHex(h1).Some? && FromHex(h2).Some? && Join(FromHex(h1).value, FromHex(h2).value) == cks
  }

  function Prepend(replies: seq<byte>, r: Received): Received { r.(replies := replies + r.replies) }

  /** Everything up to a '$' is skipped, except that an interrupt byte is a packet of its own; a frame with a wrong
      checksum is answered and skipped. */
  function Receive(input: seq<byte>, noAck: bool): Received
    decreases |input|
  {
    if input == [] then Blocked([])
    else if input[0] == CTRL_C then Packet([CTRL_C], input[1..], [])
    else if input[0] != DOLLAR then Receive(input[1..], noAck)
    else
      var end := HashFrom(input, 1);
      if end + 2 >= |input| then Blocked([])
      else
        var body := Stored(input[1..end]);
        var ok := Matches(input[end + 1], input[end + 2], Sum(body));
        var reply := if noAck then [] else [if ok then PLUS else MINUS];
        if ok then Packet(body, input[end + 3..], reply)
        else Prepend(reply, Receive(input[end + 3..], noAck))
  }

  /** Bytes that precede a good frame: stray ones, and frames whose checksum is wrong or not hexadecimal. */
  datatype Noise = Stray(b: byte) | BadFrame(body: seq<byte>, h1: byte, h2: byte)

  predicate NoiseOk(x: Noise) {
    match x
    case Stray(b) => b != DOLLAR && b != CTRL_C
    case BadFrame(body, h1, h2) => HASH !in body && !Matches(h1, h2, Sum(Stored(body)))
  }

  function NoiseBytes(x: Noise): seq<byte> {
    match x
    case Stray(b) => [b]
    case BadFrame(body, h1, h2) => [DOLLAR] + body + [HASH, h1, h2]
  }

  function Bytes(xs: seq<Noise>): seq<byte> {
    if xs == [] then [] else NoiseBytes(xs[0]) + Bytes(xs[1..])
  }

  /** One '-' for every bad frame. */
  function Nacks(xs: seq<Noise>): seq<byte> {
    if xs == [] then [] else (if xs[0].BadFrame? then [MINUS] else []) + Nacks(xs[1..])
  }

  lemma {:induction false} HashAfter(s: seq<byte>, i: nat, j: nat)
    requires i <= j < |s| && s[j] == HASH && forall k :: i <= k < j ==> s[k] != HASH
    ensures HashFrom(s, i) == j
    decreases j - i
  {
    if i < j {
      HashAfter(s, i + 1, j);
    }
  }

  /** A frame at the front of the input is read as a whole. */
  lemma ReceiveFrame(body: seq<byte>, h1: byte, h2: byte, rest: seq<byte>, noAck: bool)
    requires HASH !in body
    ensures var input := [DOLLAR] + body + [HASH, h1, h2] + rest;
            var ok := Matches(h1, h2, Sum(Stored(body)));
            var reply := if noAck then [] else [if ok then PLUS else MINUS];
            Receive(input, noAck) == if ok then Packet(Stored(body), rest, reply) else Prepend(reply, Receive(rest, noAck))
  {
    hide Matches, Sum, Stored;
    var input := [DOLLAR] + body + [HASH, h1, h2] + rest;
    var end := |body| + 1;
    assert forall k :: 1 <= k < end ==> input[k] == body[k - 1];
    HashAfter(input, 1, end);
    assert input[1..end] == body && input[end + 3..] == rest;
  }

  lemma GoodChecksum(p: seq<byte>)
    ensures Matches(HexPair(Sum(p))[0], HexPair(Sum(p))[1], Sum(p))
  {
    hide Sum;
    PairRoundTrip(Sum(p));
  }

  /** One piece of noise is skipped, and answered if it is a frame. */
  lemma ReceiveNoise(x: Noise, more: seq<byte>, noAck: bool)
    requires NoiseOk(x)
    ensures Receive(NoiseBytes(x) + more, noAck) ==
            Prepend(if noAck || x.Stray? then [] else [MINUS], Receive(more, noAck))
  {
    hide Matches, Sum, Stored, Receive;
    match x {
      case Stray(b) =>
        ReceiveStray(b, more, noAck);
        PrependNone(Receive(more, noAck));
      case BadFrame(body, h1, h2) =>
        ReceiveFrame(body, h1, h2, more, noAck);
    }
  }

  lemma NacksCons(xs: seq<Noise>)
    requires xs != []
    ensures Nacks(xs) == (if xs[0].Stray? then [] else [MINUS]) + Nacks(xs[1..])
    ensures Bytes(xs) == NoiseBytes(xs[0]) + Bytes(xs[1..])
  {
  }

  lemma NoNoise(xs: seq<Noise>)
    requires xs == []
    ensures Bytes(xs) == [] && Nacks(xs) == []
  {
  }

  lemma Regroup(a: seq<byte>, b: seq<byte>, c: seq<byte>, d: seq<byte>)
    ensures a + b + c + d == a + (b + c + d)
  {
  }

  /** Whatever noise comes first, the receiver finds the frame that was sent, returns exactly its payload, leaves the
      rest of the input alone, and answers each bad frame with '-' and the good one with '+' (or nothing at all). */
  lemma {:induction false} Resync(xs: seq<Noise>, p: seq<byte>, rest: seq<byte>, noAck: bool)
    requires forall i :: 0 <= i < |xs| ==> NoiseOk(xs[i])
    requires HASH !in p && |p| <= 0x2000
    ensures Receive(Bytes(xs) + Frame(p) + rest, noAck) ==
            Packet(p, rest, if noAck then [] else Nacks(xs) + [PLUS])
  {
    hide Receive, NoiseBytes, NoiseOk, Bytes, Nacks, Frame;
    if xs == [] {
      NoNoise(xs);
      ReceiveGood(p, rest, noAck);
      assert Bytes(xs) + Frame(p) + rest == Frame(p) + rest;
      assert Nacks(xs) + [PLUS] == [PLUS];
    } else {
      Resync(xs[1..], p, rest, noAck);
      NacksCons(xs);
      Regroup(NoiseBytes(xs[0]), Bytes(xs[1..]), Frame(p), rest);
      ReceiveNoise(xs[0], Bytes(xs[1..]) + Frame(p) + rest, noAck);
      Regroup(if xs[0].Stray? then [] else [MINUS], Nacks(xs[1..]), [PLUS], []);
    }
  }

  lemma ReceiveStray(b: byte, more: seq<byte>, noAck: bool)
    requires b != DOLLAR && b != CTRL_C
    ensures Receive([b] + more, noAck) == Receive(more, noAck)
  {
    assert ([b] + more)[1..] == more;
  }

  lemma ReceiveGood(p: seq<byte>, rest: seq<byte>, noAck: bool)
    requires HASH !in p && |p| <= INBUF_LEN
    ensures Receive(Frame(p) + rest, noAck) == Packet(p, rest, if noAck then [] else [PLUS])
  {
    hide Matches, Sum, Receive, HexPair;
    var h := HexPair(Sum(p));
    GoodChecksum(p);
    ReceiveFrame(p, h[0], h[1], rest, noAck);
    assert Frame(p) + rest == [DOLLAR] + p + [HASH, h[0], h[1]] + rest;
  }

  /** The receive of one byte, with what follows a '$' as a string of its own. */
  lemma UnfoldReceive(input: seq<byte>, noAck: bool)
    requires input != []
    ensures input[0] == CTRL_C ==> Receive(input, noAck) == Packet([CTRL_C], input[1..], [])
    ensures input[0] != CTRL_C && input[0] != DOLLAR ==> Receive(input, noAck) == Receive(input[1..], noAck)
    ensures input[0] == DOLLAR ==>
              var tail := input[1..];
              var end := HashFrom(tail, 0);
              Receive(input, noAck) ==
              if end + 2 >= |tail| then Blocked([])
              else
                var body := Stored(tail[..end]);
                var ok := Matches(tail[end + 1], tail[end + 2], Sum(body));
                var reply := if noAck then [] else [if ok then PLUS else MINUS];
                if ok then Packet(body, tail[end + 3..], reply)
                else Prepend(reply, Receive(tail[end + 3..], noAck))
  {
    hide Matches, Sum, Stored, Prepend;
    if input[0] == DOLLAR {
      var tail := input[1..];
      var end := HashFrom(tail, 0);
      HashShift(input);
      if end + 2 < |tail| {
        assert input[1..end + 1] == tail[..end] && input[end + 4..] == tail[end + 3..];
      }
    }
  }

  lemma HashShift(input: seq<byte>)
    requires input != []
    ensures HashFrom(input, 1) == HashFrom(input[1..], 0) + 1
  {
    var tail := input[1..];
    var end := HashFrom(tail, 0);
    assert forall k :: 0 <= k < |tail| ==> tail[k] == input[k + 1];
    assert forall k :: 1 <= k < |input| ==> input[k] == tail[k - 1];
    if end < |tail| {
      HashAfter(input, 1, end + 1);
    }
  }

  /** The inner loop: the body up to '#', as much of it as the buffer holds, and its checksum. None if the line goes
      quiet before. */
  method ReadBody(link: Link, inbuf: array<byte>) returns (len: Option<nat>, cks: byte)
    requires inbuf.Length == INBUF_LEN
    modifies link`input, inbuf
    ensures var input := old(link.input);
            var end := HashFrom(input, 0);
            if end == |input| then len == None
            else
              var body := Stored(input[..end]);
              |body| <= INBUF_LEN && len == Some(|body|) && inbuf[..|body|] == body && cks == Sum(body)
              && link.input == input[end + 1..]
  {
    hide Sum, Stored;
    ghost var input := link.input;
    ghost var read := 0;
    var n := 0;
    cks := 0;
    StoredNone(input);
    while true
      invariant read <= |input| && link.input == input[read..]
      invariant forall k :: 0 <= k < read ==> input[k] != HASH
      invariant n == |Stored(input[..read])| && inbuf[..n] == Stored(input[..read]) && cks == Sum(Stored(input[..read]))
      decreases |link.input|
    {
      var c := link.Getc();
      if c == None {
        return None, cks;
      }
      if c.value == HASH {
        HashAfter(input, 0, read);
        break;
      }
      ghost var was := Stored(input[..read]);
      assert input[..read + 1] == input[..read] + [c.value];
      StoredMore(input[..read], c.value);
      if n < INBUF_LEN {
        inbuf[n] := c.value;
        n := n + 1;
        cks := (cks + c.value) % 0x100;
        assert inbuf[..n] == was + [c.value];
      }
      read := read + 1;
    }
    len := Some(n);
  }

  lemma StoredNone(input: seq<byte>)
    ensures Stored(input[..0]) == [] && Sum([]) == 0
  {
  }

  lemma StoredMore(body: seq<byte>, c: byte)
    ensures |Stored(body)| <= INBUF_LEN
    ensures |Stored(body)| < INBUF_LEN ==> Stored(body + [c]) == Stored(body) + [c]
    ensures |Stored(body)| < INBUF_LEN ==> Sum(Stored(body) + [c]) == (Sum(Stored(body)) + c) % 0x100
    ensures |Stored(body)| == INBUF_LEN ==> Stored(body + [c]) == Stored(body)
  {
    assert (Stored(body) + [c])[..|Stored(body)|] == Stored(body);
    if |body| >= INBUF_LEN {
      assert (body + [c])[..INBUF_LEN] == body[..INBUF_LEN];
    }
  }

  lemma NothingReceived(noAck: bool)
    ensures Receive([], noAck) == Blocked([])
  {
  }

  /** How the reading of a frame ends: the line goes quiet, or a frame with a right or wrong checksum. */
  datatype FrameEnd = Quiet | Good(len: nat) | Bad

  /** What follows a '$': body, checksum and the answer to it. */
  method ReadFrame(link: Link, inbuf: array<byte>, noAck: bool) returns (r: FrameEnd)
    requires inbuf.Length == INBUF_LEN
    modifies link, inbuf
    ensures var tail := old(link.input);
            var end := HashFrom(tail, 0);
            if end + 2 >= |tail| then r == Quiet && link.output == old(link.output)
            else
              var body := Stored(tail[..end]);
              var ok := Matches(tail[end + 1], tail[end + 2], Sum(body));
              && |body| <= INBUF_LEN && link.input == tail[end + 3..]
              && r == (if ok then Good(|body|) else Bad) && (ok ==> inbuf[..|body|] == body)
              && link.output == old(link.output) + (if noAck then [] else [if ok then PLUS else MINUS])
  {
    hide Sum, Stored, Join, FromHex;
    var len, cks := ReadBody(link, inbuf);
    if len == None {
      return Quiet;
    }
    var h1 := link.Getc();
    if h1 == None {
      return Quiet;
    }
    var h2 := link.Getc();
    if h2 == None {
      return Quiet;
    }
    var a, b := FromHex(h1.value), FromHex(h2.value);
    var ok := a.Some? && b.Some? && Join(a.value, b.value) == cks;
    if !noAck {
      link.Putc(if ok then PLUS else MINUS);
    }
    r := if ok then Good(len.value) else Bad;
  }

  lemma PrependNone(r: Received)
    ensures Prepend([], r) == r
  {
  }

  lemma PrependTwice(a: seq<byte>, b: seq<byte>, r: Received)
    ensures Prepend(a, Prepend(b, r)) == Prepend(a + b, r)
  {
    assert a + (b + r.replies) == a + b + r.replies;
  }

  /** What the last round contributes. */
  lemma PrependLast(a: seq<byte>, r: Received)
    ensures Prepend(a, r) == if r.Packet? then Packet(r.payload, r.rest, a + r.replies) else Blocked(a + r.replies)
  {
  }

  /** `recv_pkt_len` with the input buffer it fills. */
  method RecvPktLen(link: Link, inbuf: array<byte>, noAck: bool) returns (r: Option<nat>)
    requires inbuf.Length == INBUF_LEN
    modifies link, inbuf
    ensures match Receive(old(link.input), noAck)
            case Packet(p, rest, replies) =>
              |p| <= INBUF_LEN && r == Some(|p|) && inbuf[..|p|] == p && link.input == rest &&
              link.output == old(link.output) + replies
            case Blocked(replies) =>
              r == None && link.output == old(link.output) + replies
  {
    hide Matches, Sum, Stored, Receive, Prepend;
    ghost var sent: seq<byte> := [];
    PrependNone(Receive(link.input, noAck));
    while true
      invariant link.output == old(link.output) + sent
      invariant Receive(old(link.input), noAck) == Prepend(sent, Receive(link.input, noAck))
      decreases |link.input|
    {
      PrependLast(sent, Receive(link.input, noAck));
      if link.input != [] {
        UnfoldReceive(link.input, noAck);
      } else {
        NothingReceived(noAck);
      }
      var c := link.Getc();
      if c == None {
        return None;
      }
      if c.value == PLUS || c.value == MINUS {
        continue;
      }
      if c.value == CTRL_C {
        inbuf[0] := CTRL_C;
        return Some(1);
      }
      if c.value != DOLLAR {
        continue;
      }
      ghost var reply: seq<byte> := if noAck then [] else [MINUS];
      var frame := ReadFrame(link, inbuf, noAck);
      match frame {
        case Quiet => return None;
        case Good(len) => return Some(len);
        case Bad =>
      }
      PrependTwice(sent, reply, Receive(link.input, noAck));
      assert link.output == old(link.output) + (sent + reply);
      sent := sent + reply;
    }
  }

  /* ------------------------------ Numbers in packets ------------------------------ */

  /** End of the run of hexadecimal digits that starts at i. */
  function RunEnd(s: seq<byte>, i: nat): (j: nat)
    requires i <= |s|
    ensures i <= j <= |s| && (j < |s| ==> FromHex(s[j]) == None) && forall k :: i <= k < j ==> FromHex(s[k]).Some?
    decreases |s| - i
  {
    if i == |s| || FromHex(s[i]) == None then i else RunEnd(s, i + 1)
  }

  /** The number at offset off, and how many digits it has. */
  function ParseHex(s: seq<byte>, off: nat): Option<(nat, nat)> {
    if off >= |s| || RunEnd(s, off) == off then None
    else
      DigitsHaveValue(s[off..RunEnd(s, off)]);
      Some((Value(s[off..RunEnd(s, off)]).value, RunEnd(s, off) - off))
  }

  lemma {:induction false} DigitsHaveValue(s: seq<byte>)
    requires forall k :: 0 <= k < |s| ==> FromHex(s[k]).Some?
    ensures Value(s).Some?
  {
    if s != [] {
      DigitsHaveValue(s[..|s| - 1]);
    }
  }

  method ParseHexUsize(inbuf: array<byte>, off: nat, total: nat) returns (r: Option<(nat, nat)>)
    requires total <= inbuf.Length
    ensures r == ParseHex(inbuf[..total], off)
  {
    hide FromHex;
    ghost var s := inbuf[..total];
    var n, i := 0, 0;
    while off + i < total
      invariant off + i <= total || i == 0
      invariant n < WORD && (off <= total ==> Value(s[off..off + i]) == Some(n))
      invariant forall k :: off <= k < off + i ==> FromHex(s[k]).Some?
    {
      var b := inbuf[off + i];
      var v := FromHex(b);
      if v == None {
        break;
      }
      ShiftIn(n, v.value);
      assert s[off..off + i + 1] == s[off..off + i] + [b];
      ValueAppend(s[off..off + i], b);
      n := Or(n * 16 % WORD, v.value);
      i := i + 1;
    }
    if off <= total {
      RunIs(s, off, off + i);
    }
    r := if i == 0 then None else Some((n, i));
  }

  lemma ValueAppend(s: seq<byte>, b: byte)
    requires Value(s).Some? && FromHex(b).Some?
    ensures Value(s + [b]) == Some((Value(s).value * 16 + FromHex(b).value) % WORD)
  {
    assert (s + [b])[..|s|] == s;
  }

  lemma {:induction false} RunIs(s: seq<byte>, i: nat, j: nat)
    requires i <= j <= |s| && (j < |s| ==> FromHex(s[j]) == None) && forall k :: i <= k < j ==> FromHex(s[k]).Some?
    ensures RunEnd(s, i) == j
    decreases j - i
  {
    if i < j {
      RunIs(s, i + 1, j);
    }
  }

  lemma {:induction false} DigitsAreHex(v: nat)
    ensures forall k :: 0 <= k < |Digits(v)| ==> FromHex(Digits(v)[k]).Some?
  {
    if v < 16 {
      DigitRoundTrip(v);
    } else {
      DigitsAreHex(v / 16);
      DigitRoundTrip(v % 16);
    }
  }

  /** Every 64-bit number reads back as itself, all its digits used, wherever it stands in a packet. */
  lemma NumberRoundTrip(before: seq<byte>, v: nat, after: seq<byte>)
    requires v < WORD && (after != [] ==> FromHex(after[0]) == None)
    ensures ParseHex(before + Digits(v) + after, |before|) == Some((v, |Digits(v)|))
  {
    hide FromHex, Digits;
    var s, i, j := before + Digits(v) + after, |before|, |before| + |Digits(v)|;
    DigitsAreHex(v);
    assert s[i..j] == Digits(v);
    assert forall k :: i <= k < j ==> s[k] == s[i..j][k - i];
    RunIs(s, i, j);
    DigitsRoundTrip(v);
  }

  /** "addr,len": the two numbers and the characters used. */
  function ParsePair(s: seq<byte>, off: nat): Option<(nat, nat, nat)> {
    match ParseHex(s, off)
    case None => None
    case Some((addr, ua)) =>
      if off + ua >= |s| || s[off + ua] != COMMA then None
      else
        match ParseHex(s, off + ua + 1)
        case None => None
        case Some((len, ul)) => Some((addr, len, ua + 1 + ul))
  }

  method ParseAddrLen(inbuf: array<byte>, off: nat, total: nat) returns (r: Option<(nat, nat, nat)>)
    requires total <= inbuf.Length
    ensures r == ParsePair(inbuf[..total], off)
  {
    var a := ParseHexUsize(inbuf, off, total);
    if a == None {
      return None;
    }
    var (addr, ua) := a.value;
    if off + ua >= total || inbuf[off + ua] != COMMA {
      return None;
    }
    var l := ParseHexUsize(inbuf, off + ua + 1, total);
    if l == None {
      return None;
    }
    r := Some((addr, l.value.0, ua + 1 + l.value.1));
  }

  lemma AddrLenRoundTrip(before: seq<byte>, addr: nat, len: nat, after: seq<byte>)
    requires addr < WORD && len < WORD && (after != [] ==> FromHex(after[0]) == None)
    ensures ParsePair(before + Digits(addr) + [COMMA] + Digits(len) + after, |before|) ==
            Some((addr, len, |Digits(addr)| + 1 + |Digits(len)|))
  {
    hide Digits, ParseHex;
    var s := before + Digits(addr) + [COMMA] + Digits(len) + after;
    var tail := [COMMA] + Digits(len) + after;
    assert s == before + Digits(addr) + tail;
    NumberRoundTrip(before, addr, tail);
    var head := before + Digits(addr) + [COMMA];
    assert s == head + Digits(len) + after;
    NumberRoundTrip(head, len, after);
  }

  /** Digits of v, none for zero: what the collecting loop still has to produce. */
  function Pending(v: nat): seq<byte> { if v == 0 then [] else Digits(v) }

  function Reversed(s: seq<byte>): (r: seq<byte>)
    ensures |r| == |s|
  {
    if s == [] then [] else [s[|s| - 1]] + Reversed(s[..|s| - 1])
  }

  /** `write_hex_u64_stream`: the digits go out, and into the running checksum. */
  method WriteHexU64Stream(link: Link, ghost sent: seq<byte>, cks: byte, v: nat) returns (cks': byte)
    requires v < WORD && cks == Sum(sent)
    modifies link`output
    ensures link.output == old(link.output) + Digits(v) && cks' == Sum(sent + Digits(v))
  {
    hide Sum, Reversed;
    if v == 0 {
      link.Putc(0x30);
      SumAppend(sent, 0x30);
      return (cks + 0x30) % 0x100;
    }
    var tmp, n := CollectDigits(v);
    cks' := EmitReversed(link, tmp, n, sent, cks);
  }

  /** First loop: the digits, least significant first. */
  method CollectDigits(v: nat) returns (tmp: array<byte>, n: nat)
    requires 0 < v < WORD
    ensures fresh(tmp) && n <= tmp.Length == 16 && Reversed(tmp[..n]) == Digits(v)
  {
    hide Digits, Reversed, Pending, Hex4, Pow2;
    tmp := new byte[16];
    n := 0;
    var w: nat := v;
    Pow2Values();
    NothingCollected(v, tmp[..0]);
    while w != 0
      invariant n <= 16 && w < Pow2(4 * (16 - n))
      invariant Digits(v) == Pending(w) + Reversed(tmp[..n])
      decreases w
    {
      CollectDigit(w, tmp[..n], 16 - n);
      tmp[n] := Hex4(w % 16);
      assert tmp[..n + 1] == tmp[..n] + [Hex4(w % 16)];
      n := n + 1;
      w := w / 16;
    }
    NothingPending(Reversed(tmp[..n]));
  }

  /** Second loop: sends what was collected, last one first. */
  method EmitReversed(link: Link, tmp: array<byte>, n: nat, ghost sent: seq<byte>, cks: byte) returns (cks': byte)
    requires n <= tmp.Length && cks == Sum(sent)
    modifies link`output
    ensures link.output == old(link.output) + Reversed(tmp[..n]) && cks' == Sum(sent + Reversed(tmp[..n]))
  {
    hide Sum;
    ghost var out: seq<byte> := [];
    cks' := cks;
    var i := n;
    assert sent + out == sent;
    while i > 0
      invariant 0 <= i <= n && out + Reversed(tmp[..i]) == Reversed(tmp[..n])
      invariant link.output == old(link.output) + out && cks' == Sum(sent + out)
    {
      i := i - 1;
      assert tmp[..i + 1][..i] == tmp[..i];
      assert out + Reversed(tmp[..i + 1]) == (out + [tmp[i]]) + Reversed(tmp[..i]);
      link.Putc(tmp[i]);
      SumAppend(sent + out, tmp[i]);
      assert sent + out + [tmp[i]] == sent + (out + [tmp[i]]);
      cks' := (cks' + tmp[i]) % 0x100;
      out := out + [tmp[i]];
    }
    assert tmp[..0] == [] && out + [] == out;
  }

  lemma NothingCollected(v: nat, none: seq<byte>)
    requires v > 0 && none == []
    ensures Digits(v) == Pending(v) + Reversed(none)
  {
  }

  lemma NothingPending(s: seq<byte>)
    ensures Pending(0) + s == s
  {
  }

  lemma SumAppend(s: seq<byte>, b: byte)
    ensures Sum(s + [b]) == (Sum(s) + b) % 0x100
  {
    assert (s + [b])[..|s|] == s;
  }

  lemma CollectDigit(w: nat, s: seq<byte>, k: nat)
    requires 0 < w < Pow2(4 * k)
    ensures k > 0 && w / 16 < Pow2(4 * (k - 1))
    ensures Pending(w) + Reversed(s) == Pending(w / 16) + Reversed(s + [Hex4(w % 16)])
  {
    hide Hex4, Pending, Digits;
    DropDigit(w, k);
    PendingStep(w);
    var d := Hex4(w % 16);
    assert (s + [d])[..|s|] == s;
    assert Reversed(s + [d]) == [d] + Reversed(s);
  }

  lemma PendingStep(w: nat)
    requires w > 0
    ensures Pending(w) == Pending(w / 16) + [Hex4(w % 16)]
  {
    hide Hex4;
    if w < 16 {
      assert w / 16 == 0 && w % 16 == w;
    }
  }

  lemma DropDigit(w: nat, k: nat)
    requires 0 < w < Pow2(4 * k)
    ensures k > 0 && w / 16 < Pow2(4 * (k - 1))
  {
    if k > 0 {
      Pow2Add(4, 4 * (k - 1));
      assert Pow2(4) == 16;
    }
  }

  /* ------------------------------ Stop replies ------------------------------ */

  const THREAD: seq<byte> := [0x3B, 0x74, 0x68, 0x72, 0x65, 0x61, 0x64, 0x3A]
  const PC: seq<byte> := [0x3B, 0x70, 0x63, 0x3A]
  const SEMICOLON: byte := 0x3B
  const LETTER_T: byte := 0x54

  /** "T", the signal in two digits, ";thread:", the thread id, ";pc:", the program counter, ";". */
  function StopReply(sig: byte, tid: nat, pc: nat): seq<byte> {
    [LETTER_T] + HexPair(sig) + THREAD + Digits(tid) + PC + Digits(pc) + [SEMICOLON]
  }

  /** Sends bytes of a payload and adds them to the running checksum. */
  method PutSummed(link: Link, ghost sent: seq<byte>, cks: byte, bs: seq<byte>) returns (cks': byte)
    requires cks == Sum(sent)
    modifies link`output
    ensures link.output == old(link.output) + bs && cks' == Sum(sent + bs)
  {
    hide Sum;
    cks' := cks;
    assert sent + bs[..0] == sent;
    for i := 0 to |bs|
      invariant link.output == old(link.output) + bs[..i] && cks' == Sum(sent + bs[..i])
    {
      link.Putc(bs[i]);
      SumAppend(sent + bs[..i], bs[i]);
      assert bs[..i + 1] == bs[..i] + [bs[i]];
      assert sent + bs[..i] + [bs[i]] == sent + bs[..i + 1];
      cks' := (cks' + bs[i]) % 0x100;
    }
    assert bs[..|bs|] == bs;
  }

  /** The stop reply is streamed piece by piece, and comes out as the frame of its payload. */
  method SendTStop(link: Link, sig: byte, tid: nat, pc: nat)
    requires tid < WORD && pc < WORD
    modifies link`output
    ensures link.output == old(link.output) + Frame(StopReply(sig, tid, pc))
  {
    hide Sum, Digits, HexPair;
    link.Putc(DOLLAR);
    EmptySum();
    var cks := PutSummed(link, [], 0, [LETTER_T] + HexPair(sig) + THREAD);
    ghost var p := [] + ([LETTER_T] + HexPair(sig) + THREAD);
    cks := WriteHexU64Stream(link, p, cks, tid);
    p := p + Digits(tid);
    cks := PutSummed(link, p, cks, PC);
    p := p + PC;
    cks := WriteHexU64Stream(link, p, cks, pc);
    p := p + Digits(pc);
    cks := PutSummed(link, p, cks, [SEMICOLON]);
    p := p + [SEMICOLON];
    assert p == StopReply(sig, tid, pc);
    link.Putc(HASH);
    PairIs(cks);
    link.Putc(Hex4(cks / 16));
    link.Putc(Hex4(cks % 16));
    assert link.output == old(link.output) + ([DOLLAR] + p + [HASH] + HexPair(cks));
  }

  lemma EmptySum()
    ensures Sum([]) == 0
  {
  }

  lemma PairIs(v: byte)
    ensures HexPair(v) == [Hex4(v / 16), Hex4(v % 16)]
  {
  }
}

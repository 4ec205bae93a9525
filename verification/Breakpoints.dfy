/** Software breakpoints: the patch table, the code bytes it patches, and the trap and resume hooks. */
module Breakpoints {

  import opened Wrappers
  import opened Bits

  const MAX_BP: nat := 64
  const INT3: byte := 0xCC

  datatype Bp = Bp(addr: nat, orig: byte, armed: bool)

  type Table = seq<Option<Bp>>

  /** Mapped bytes by address, and the addresses where stores have no effect. */
  datatype World = World(table: Table, mem: map<nat, byte>, rom: set<nat>)

  function Store(w: World, addr: nat, v: byte): World {
    if addr in w.rom then w else w.(mem := w.mem[addr := v])
  }

  /* ------------------------------ Looking up ------------------------------ */

  predicate Holds(e: Option<Bp>, addr: nat) { e.Some? && e.value.addr == addr }

  /** Index of the first entry for addr among the first n. */
  function Find(table: Table, addr: nat, n: nat): (r: Option<nat>)
    requires n <= |table|
    ensures r.Some? ==> r.value < n && Holds(table[r.value], addr) && forall i :: 0 <= i < r.value ==> !Holds(table[i], addr)
    ensures r == None ==> forall i :: 0 <= i < n ==> !Holds(table[i], addr)
  {
    if n == 0 then None
    else if Find(table, addr, n - 1).Some? then Find(table, addr, n - 1)
    else if Holds(table[n - 1], addr) then Some(n - 1)
    else None
  }

  /** Index of the first unused slot among the first n. */
  function FindFree(table: Table, n: nat): (r: Option<nat>)
    requires n <= |table|
    ensures r.Some? ==> r.value < n && table[r.value] == None && forall i :: 0 <= i < r.value ==> table[i] != None
    ensures r == None ==> forall i :: 0 <= i < n ==> table[i] != None
  {
    if n == 0 then None
    else if FindFree(table, n - 1).Some? then FindFree(table, n - 1)
    else if table[n - 1] == None then Some(n - 1)
    else None
  }

  /** The slot that `insert` uses: the address's own, else the first free one. */
  function SlotFor(table: Table, addr: nat): Option<nat> {
    var own := Find(table, addr, |table|);
    if own.Some? then own else FindFree(table, |table|)
  }

  /** The breakpoint at addr. */
  function At(table: Table, addr: nat): (r: Option<Bp>)
    ensures r.Some? ==> r.value.addr == addr
  {
    var own := Find(table, addr, |table|);
    if own == None then None else table[own.value]
  }

  predicate ArmedAt(table: Table, addr: nat) { At(table, addr).Some? && At(table, addr).value.armed }

  /* ------------------------------ Operations ------------------------------ */

  function Inserted(w: World, addr: nat): (World, bool)
    requires addr in w.mem
  {
    var slot := SlotFor(w.table, addr);
    if slot == None then (w, false)
    else if ArmedAt(w.table, addr) then (w, true)
    else
      var patched := Store(w, addr, INT3);
      if patched.mem[addr] != INT3 then (patched, false)
      else (patched.(table := w.table[slot.value := Some(Bp(addr, w.mem[addr], true))]), true)
  }

  function Removed(w: World, addr: nat): (World, bool) {
    var own := Find(w.table, addr, |w.table|);
    if own == None then (w, false)
    else
      var bp := w.table[own.value].value;
      var restored := if bp.armed then Store(w, addr, bp.orig) else w;
      (restored.(table := w.table[own.value := None]), true)
  }

  function Before(rip: nat): nat { if rip == 0 then WORD - 1 else rip - 1 }

  /** Trap entry: the world, the new instruction pointer and the address hit. */
  function Trapped(w: World, rip: nat): (World, nat, Option<nat>) {
    var hit := Before(rip);
    if !ArmedAt(w.table, hit) then (w, rip, None)
    else
      var slot := Find(w.table, hit, |w.table|).value;
      var bp := w.table[slot].value;
      (Store(w, hit, bp.orig).(table := w.table[slot := Some(bp.(armed := false))]), hit, Some(hit))
  }

  function Continued(w: World, lastHit: Option<nat>): World
    requires lastHit.Some? ==> lastHit.value in w.mem
  {
    if lastHit == None then w else Inserted(w, lastHit.value).0
  }

  /* ------------------------------ The invariant ------------------------------ */

  /** Addresses are unique; an armed site holds the trap instruction (and was one, where stores have no effect); a
      disarmed site holds its original byte. */
  ghost predicate Inv(w: World) {
    && |w.table| == MAX_BP
    && (forall i, j :: 0 <= i < j < |w.table| && w.table[i].Some? && w.table[j].Some? ==>
          w.table[i].value.addr != w.table[j].value.addr)
    && (forall i :: 0 <= i < |w.table| && w.table[i].Some? ==> SiteOk(w, w.table[i].value))
  }

  ghost predicate SiteOk(w: World, bp: Bp) {
    && bp.addr in w.mem
    && w.mem[bp.addr] == (if bp.armed then INT3 else bp.orig)
    && (bp.armed && bp.addr in w.rom ==> bp.orig == INT3)
  }

  /** Memory as the program would see it without breakpoints. */
  function Original(w: World, addr: nat): byte
    requires addr in w.mem
  {
    if ArmedAt(w.table, addr) then At(w.table, addr).value.orig else w.mem[addr]
  }

  ghost predicate SameProgram(w: World, w': World) {
    && w'.mem.Keys == w.mem.Keys && w'.rom == w.rom
    && forall a :: a in w.mem ==> Original(w', a) == Original(w, a)
  }

  /** Writing one slot changes the entry of the addresses involved and of no other. */
  lemma SlotWrite(w: World, slot: nat, e: Option<Bp>, a: nat)
    requires Inv(w) && slot < |w.table|
    requires !Holds(w.table[slot], a) && !Holds(e, a)
    ensures At(w.table[slot := e], a) == At(w.table, a)
  {
    var table' := w.table[slot := e];
    var own, own' := Find(w.table, a, |w.table|), Find(table', a, |table'|);
    assert forall i :: 0 <= i < |w.table| && i != slot ==> table'[i] == w.table[i];
    if own.Some? {
      assert Holds(table'[own.value], a);
    }
    if own'.Some? {
      assert Holds(w.table[own'.value], a);
    }
  }

  lemma SlotFound(table: Table, slot: nat, a: nat)
    requires slot < |table| && Holds(table[slot], a)
    requires forall i :: 0 <= i < |table| && i != slot ==> !Holds(table[i], a)
    ensures At(table, a) == table[slot]
  {
  }

  lemma SlotGone(table: Table, a: nat)
    requires forall i :: 0 <= i < |table| ==> !Holds(table[i], a)
    ensures At(table, a) == None
  {
  }

  lemma InsertKeeps(w: World, addr: nat)
    requires Inv(w) && addr in w.mem
    ensures var (w', ok) := Inserted(w, addr);
            && Inv(w') && SameProgram(w, w')
            && (ok <==> SlotFor(w.table, addr).Some? && (ArmedAt(w.table, addr) || addr !in w.rom || w.mem[addr] == INT3))
            && (ok ==> At(w'.table, addr) == Some(Bp(addr, Original(w, addr), true)))
            && (!ok ==> w' == w)
            && forall a :: a != addr ==> At(w'.table, a) == At(w.table, a)
  {
    var (w', ok) := Inserted(w, addr);
    var slot := SlotFor(w.table, addr);
    if slot.Some? && !ArmedAt(w.table, addr) && ok {
      SlotFound(w'.table, slot.value, addr);
      forall a | a != addr
        ensures At(w'.table, a) == At(w.table, a)
      {
        SlotWrite(w, slot.value, w'.table[slot.value], a);
      }
    }
  }

  lemma RemoveKeeps(w: World, addr: nat)
    requires Inv(w)
    ensures var (w', ok) := Removed(w, addr);
            && Inv(w') && SameProgram(w, w')
            && (ok <==> At(w.table, addr).Some?)
            && At(w'.table, addr) == None
            && (!ok ==> w' == w)
            && forall a :: a != addr ==> At(w'.table, a) == At(w.table, a)
  {
    var (w', ok) := Removed(w, addr);
    var own := Find(w.table, addr, |w.table|);
    if own.Some? {
      assert SiteOk(w, w.table[own.value].value);
      SlotGone(w'.table, addr);
      forall a | a != addr
        ensures At(w'.table, a) == At(w.table, a)
      {
        SlotWrite(w, own.value, None, a);
      }
    }
  }

  lemma TrapKeeps(w: World, rip: nat)
    requires Inv(w)
    ensures var (w', rip', hit) := Trapped(w, rip);
            && Inv(w') && SameProgram(w, w')
            && (hit.Some? <==> ArmedAt(w.table, Before(rip)))
            && (hit == None ==> w' == w && rip' == rip)
            && (hit.Some? ==> hit.value == rip' == Before(rip) && rip' in w.mem
                              && w'.mem[rip'] == Original(w, rip')
                              && At(w'.table, rip') == Some(At(w.table, rip').value.(armed := false)))
            && forall a :: a != Before(rip) ==> At(w'.table, a) == At(w.table, a)
  {
    var (w', rip', hit) := Trapped(w, rip);
    if hit.Some? {
      var slot := Find(w.table, rip', |w.table|).value;
      assert SiteOk(w, w.table[slot].value);
      SlotFound(w'.table, slot, rip');
      forall a | a != rip'
        ensures At(w'.table, a) == At(w.table, a)
      {
        SlotWrite(w, slot, w'.table[slot], a);
      }
    }
  }

  /** The trap instruction is one byte long and leaves the instruction pointer behind it: a trap one past an armed site,
      counted modulo 2^64, reports that site, goes back to it, and finds the original byte there. */
  lemma TrapOnePast(w: World, a: nat, rip: nat)
    requires Inv(w) && ArmedAt(w.table, a) && a < WORD && rip == (a + 1) % WORD
    ensures var (w', rip', hit) := Trapped(w, rip);
            && hit == Some(a) && rip' == a && a in w'.mem && a in w.mem
            && w.mem[a] == 0xCC && w'.mem[a] == Original(w, a) && !ArmedAt(w'.table, a)
  {
    TrapKeeps(w, rip);
  }

  /** A hit is only ever reported one byte before the instruction pointer, and without a hit nothing moves. */
  lemma HitIsOneBack(w: World, rip: nat)
    requires Inv(w) && rip < WORD
    ensures var (w', rip', hit) := Trapped(w, rip);
            if hit.Some? then (hit.value + 1) % WORD == rip && rip' == hit.value && ArmedAt(w.table, hit.value)
            else w' == w && rip' == rip
  {
    TrapKeeps(w, rip);
  }

  /** Where stores take effect, an insert fails only for want of a slot, of which there are 64. */
  lemma InsertNeedsSlot(w: World, addr: nat)
    requires Inv(w) && addr in w.mem && addr !in w.rom
    ensures |w.table| == 64
    ensures Inserted(w, addr).1 <==> At(w.table, addr).Some? || exists i :: 0 <= i < 64 && w.table[i] == None
  {
    InsertKeeps(w, addr);
  }

  /* ------------------------------ Whole sessions ------------------------------ */

  datatype Command = Insert(addr: nat) | Remove(addr: nat) | Trap(rip: nat) | Continue(lastHit: Option<nat>) | SingleStep

  /** The address that a command may plant a breakpoint at is mapped. */
  predicate Allowed(w: World, c: Command) {
    && (c.Insert? ==> c.addr in w.mem)
    && (c.Continue? && c.lastHit.Some? ==> c.lastHit.value in w.mem)
  }

  /** `on_resume_step` only records the address in a variable that nothing reads. */
  function Next(w: World, c: Command): World
    requires Allowed(w, c)
  {
    match c
    case Insert(addr) => Inserted(w, addr).0
    case Remove(addr) => Removed(w, addr).0
    case Trap(rip) => Trapped(w, rip).0
    case Continue(lastHit) => Continued(w, lastHit)
    case SingleStep => w
  }

  ghost predicate Session(w: World, cs: seq<Command>)
    decreases |cs|
  {
    cs == [] || (Allowed(w, cs[0]) && Session(Next(w, cs[0]), cs[1..]))
  }

  ghost function End(w: World, cs: seq<Command>): World
    requires Session(w, cs)
    decreases |cs|
  {
    if cs == [] then w else End(Next(w, cs[0]), cs[1..])
  }

  lemma NextKeeps(w: World, c: Command)
    requires Inv(w) && Allowed(w, c)
    ensures Inv(Next(w, c)) && SameProgram(w, Next(w, c))
  {
    hide Inv, SameProgram, Inserted, Removed, Trapped, SlotFor;
    match c {
      case Insert(addr) => InsertKeeps(w, addr);
      case Remove(addr) => RemoveKeeps(w, addr);
      case Trap(rip) => TrapKeeps(w, rip);
      case Continue(lastHit) =>
        if lastHit.Some? {
          InsertKeeps(w, lastHit.value);
        } else {
          SameAsItself(w);
        }
      case SingleStep => SameAsItself(w);
    }
  }

  lemma SameAsItself(w: World)
    ensures SameProgram(w, w)
  {
  }

  /** Transparency: over any session, the program without its breakpoints never changes, and the table stays
      consistent with memory. */
  lemma {:induction false} Transparent(w: World, cs: seq<Command>)
    requires Inv(w) && Session(w, cs)
    ensures Inv(End(w, cs)) && SameProgram(w, End(w, cs))
    decreases |cs|
  {
    hide Inv, Next, Allowed, Original;
    if cs != [] {
      NextKeeps(w, cs[0]);
      Transparent(Next(w, cs[0]), cs[1..]);
    }
  }

  lemma EmptyTable(w: World)
    requires |w.table| == MAX_BP && forall i :: 0 <= i < MAX_BP ==> w.table[i] == None
    ensures Inv(w) && forall a :: a in w.mem ==> Original(w, a) == w.mem[a]
  {
    forall a | a in w.mem
      ensures Original(w, a) == w.mem[a]
    {
      SlotGone(w.table, a);
    }
  }

  /** When a session that started without breakpoints ends without breakpoints, memory is what it was. */
  lemma NoTraceLeft(w: World, cs: seq<Command>)
    requires |w.table| == MAX_BP && (forall i :: 0 <= i < MAX_BP ==> w.table[i] == None) && Session(w, cs)
    requires forall a :: At(End(w, cs).table, a) == None
    ensures End(w, cs).mem == w.mem
  {
    hide At;
    EmptyTable(w);
    Transparent(w, cs);
    var w' := End(w, cs);
    assert forall a :: a in w.mem ==> Original(w', a) == w'.mem[a];
  }

  /** Removing every address that is in the table empties it, so that any session can be cleaned up. */
  lemma {:induction false} RemoveAll(w: World, addrs: seq<nat>)
    requires Inv(w)
    requires forall a :: At(w.table, a).Some? ==> a in addrs
    ensures Session(w, Removals(addrs)) && forall a :: At(End(w, Removals(addrs)).table, a) == None
    decreases |addrs|
  {
    hide Inv, At, Removed, Find;
    if addrs != [] {
      RemoveKeeps(w, addrs[0]);
      RemoveAll(Removed(w, addrs[0]).0, addrs[1..]);
      assert Removals(addrs)[1..] == Removals(addrs[1..]);
    }
  }

  function Removals(addrs: seq<nat>): (cs: seq<Command>)
    ensures |cs| == |addrs|
  {
    seq(|addrs|, i requires 0 <= i < |addrs| => Remove(addrs[i]))
  }

  /* ------------------------------ Resuming ------------------------------ */

  /** Continuing after a hit plants the breakpoint again: the state is the one before the trap. */
  lemma TrapThenContinue(w: World, rip: nat)
    requires Inv(w) && ArmedAt(w.table, Before(rip))
    ensures var (w', _, hit) := Trapped(w, rip);
            hit.Some? && hit.value in w'.mem && Continued(w', hit) == w
  {
    var a := Before(rip);
    var slot := Find(w.table, a, |w.table|).value;
    var (w', rip', hit) := Trapped(w, rip);
    assert SiteOk(w, w.table[slot].value);
    TrapKeeps(w, rip);
    var w'' := Continued(w', hit);
    assert w''.table == w.table;
    assert w''.mem == w.mem;
  }

  predicate Rearms(c: Command, a: nat) { c == Insert(a) || c == Continue(Some(a)) }

  /** A breakpoint that was hit and then stepped over stays disarmed until it is inserted or continued at again. */
  lemma {:induction false} StaysDisarmed(w: World, cs: seq<Command>, a: nat)
    requires Inv(w) && Session(w, cs) && !ArmedAt(w.table, a)
    requires forall k :: 0 <= k < |cs| ==> !Rearms(cs[k], a)
    ensures !ArmedAt(End(w, cs).table, a)
    decreases |cs|
  {
    hide Inv, ArmedAt, SameProgram, Next, Allowed, Rearms;
    if cs != [] {
      NextKeeps(w, cs[0]);
      ArmedNextIff(w, cs[0], a);
      StaysDisarmed(Next(w, cs[0]), cs[1..], a);
    }
  }

  lemma ArmedInRom(w: World, a: nat)
    requires Inv(w) && ArmedAt(w.table, a) && a in w.rom
    ensures a in w.mem && Original(w, a) == INT3
  {
    assert SiteOk(w, At(w.table, a).value);
  }

  /** Inserting at a arms it. */
  predicate Armable(w: World, a: nat)
    requires a in w.mem
  {
    SlotFor(w.table, a).Some? && (ArmedAt(w.table, a) || a !in w.rom || w.mem[a] == INT3)
  }

  lemma ArmedHasSlot(table: Table, a: nat)
    ensures ArmedAt(table, a) ==> SlotFor(table, a).Some?
  {
  }

  /** Exactly when a is armed after one command: after an insert or a continue at a, if there is a slot for it and the
      store takes effect; after any other command, if it was armed, was not removed and was not hit. */
  lemma ArmedNextIff(w: World, c: Command, a: nat)
    requires Inv(w) && Allowed(w, c)
    ensures Rearms(c, a) ==> a in w.mem && (ArmedAt(Next(w, c).table, a) <==> Armable(w, a))
    ensures !Rearms(c, a) ==> (ArmedAt(Next(w, c).table, a) <==>
                                 ArmedAt(w.table, a) && c != Remove(a) && !(c.Trap? && Before(c.rip) == a))
  {
    hide Inv, At, SameProgram, Inserted, Removed, Trapped, Find, SlotFor, Original;
    ArmedHasSlot(w.table, a);
    match c {
      case Insert(addr) => InsertKeeps(w, addr);
      case Remove(addr) => RemoveKeeps(w, addr);
      case Trap(rip) => TrapKeeps(w, rip);
      case Continue(lastHit) =>
        if lastHit.Some? {
          InsertKeeps(w, lastHit.value);
        }
      case SingleStep =>
    }
  }

  /** Removing a breakpoint while stopped at it does not last: whatever the debugger asked for since the stop,
      continuing from it leaves the breakpoint armed if and only if the table has a slot for it. */
  lemma ContinueReplants(w: World, rip: nat, cs: seq<Command>)
    requires Inv(w) && ArmedAt(w.table, Before(rip)) && Session(Trapped(w, rip).0, cs)
    ensures var stopped := End(Trapped(w, rip).0, cs);
            && Before(rip) in stopped.mem
            && (ArmedAt(Continued(stopped, Some(Before(rip))).table, Before(rip)) <==> SlotFor(stopped.table, Before(rip)).Some?)
  {
    hide At, Find, Inserted, SlotFor;
    var a := Before(rip);
    if a in w.rom {
      ArmedInRom(w, a);
    }
    TrapKeeps(w, rip);
    Transparent(Trapped(w, rip).0, cs);
    var stopped := End(Trapped(w, rip).0, cs);
    InsertKeeps(stopped, a);
    ArmedNextIff(stopped, Continue(Some(a)), a);
  }

  /* ------------------------------ The table in memory ------------------------------ */

  class Debugger {
    const table: array<Option<Bp>>
    var mem: map<nat, byte>
    const rom: set<nat>
    var replantAfterStep: Option<nat>

    ghost function Value(): World
      reads this, table
    {
      World(table[..], mem, rom)
    }

    constructor (mem: map<nat, byte>, rom: set<nat>)
      ensures fresh(table) && Value() == World(table[..], mem, rom) && Inv(Value())
      ensures forall i :: 0 <= i < table.Length ==> table[i] == None
    {
      this.mem, this.rom, this.replantAfterStep := mem, rom, None;
      this.table := new Option<Bp>[MAX_BP](_ => None);
    }

    method WriteByte(addr: nat, v: byte)
      modifies this`mem
      ensures Value() == Store(old(Value()), addr, v)
    {
      if addr !in rom {
        mem := mem[addr := v];
      }
    }

    method FindSlot(addr: nat) returns (r: Option<nat>)
      ensures r == SlotFor(table[..], addr)
    {
      var free: Option<nat> := None;
      for i := 0 to table.Length
        invariant free == FindFree(table[..], i) && Find(table[..], addr, i) == None
      {
        if Holds(table[i], addr) {
          FindAt(table[..], addr, i);
          return Some(i);
        } else if table[i] == None && free == None {
          free := Some(i);
        }
      }
      r := free;
    }

    method Insert(addr: nat) returns (ok: bool)
      requires Inv(Value()) && addr in mem
      modifies table, this`mem
      ensures (Value(), ok) == Inserted(old(Value()), addr)
    {
      ghost var w := Value();
      var slot := FindSlot(addr);
      if slot == None {
        return false;
      }
      var idx := slot.value;
      if table[idx].Some? && table[idx].value.armed {
        return true;
      }
      var orig := mem[addr];
      WriteByte(addr, INT3);
      if mem[addr] != INT3 {
        return false;
      }
      table[idx] := Some(Bp(addr, orig, true));
      ok := true;
      assert table[..] == w.table[idx := Some(Bp(addr, orig, true))];
    }

    method Remove(addr: nat) returns (ok: bool)
      requires Inv(Value())
      modifies table, this`mem
      ensures (Value(), ok) == Removed(old(Value()), addr)
    {
      ghost var w := Value();
      for i := 0 to table.Length
        invariant Value() == w && Find(w.table, addr, i) == None
      {
        if Holds(table[i], addr) {
          FindAt(w.table, addr, i);
          var bp := table[i].value;
          if bp.armed {
            WriteByte(addr, bp.orig);
          }
          table[i] := None;
          assert table[..] == w.table[i := None];
          return true;
        }
      }
      ok := false;
    }

    method OnBreakpointEnter(rip: nat) returns (newRip: nat, hit: Option<nat>)
      requires Inv(Value())
      modifies table, this`mem
      ensures (Value(), newRip, hit) == Trapped(old(Value()), rip)
    {
      ghost var w := Value();
      var hitAddr := if rip == 0 then WORD - 1 else rip - 1;
      for i := 0 to table.Length
        invariant Value() == w
        invariant forall j :: 0 <= j < i && Holds(w.table[j], hitAddr) ==> !w.table[j].value.armed
      {
        if Holds(table[i], hitAddr) && table[i].value.armed {
          UniqueSlot(w, hitAddr, i);
          var bp := table[i].value;
          WriteByte(hitAddr, bp.orig);
          table[i] := Some(bp.(armed := false));
          assert table[..] == w.table[i := Some(bp.(armed := false))];
          return hitAddr, Some(hitAddr);
        }
      }
      newRip, hit := rip, None;
    }

    method OnResumeContinue(lastHit: Option<nat>)
      requires Inv(Value()) && (lastHit.Some? ==> lastHit.value in mem)
      modifies table, this`mem
      ensures Value() == Continued(old(Value()), lastHit)
    {
      if lastHit.Some? {
        var _ := Insert(lastHit.value);
      }
    }

    method OnResumeStep(lastHit: Option<nat>)
      modifies this`replantAfterStep
      ensures Value() == old(Value()) && replantAfterStep == lastHit
    {
      replantAfterStep := lastHit;
    }
  }

  lemma {:induction false} FindStops(table: Table, addr: nat, i: nat, n: nat)
    requires i < n <= |table| && Find(table, addr, i) == None && Holds(table[i], addr)
    ensures Find(table, addr, n) == Some(i)
  {
    if i < n - 1 {
      FindStops(table, addr, i, n - 1);
    }
  }

  lemma FindAt(table: Table, addr: nat, i: nat)
    requires i < |table| && Find(table, addr, i) == None && Holds(table[i], addr)
    ensures Find(table, addr, |table|) == Some(i)
  {
    FindStops(table, addr, i, |table|);
  }

  lemma UniqueSlot(w: World, addr: nat, i: nat)
    requires Inv(w) && i < |w.table| && Holds(w.table[i], addr)
    ensures Find(w.table, addr, |w.table|) == Some(i)
  {
  }
}

/** Bringing up the application processors: the boot processor and the processors it starts share one record and one
    trampoline, and run as interleaved steps. */
module ApStartup {

  const STACK_BYTES: nat := 0x8000

  /** The shared `ApBoot` record (its padding and its two unused pointers are left out). */
  datatype Record = Record(ready: nat, cr3: nat, stackTop: nat, entry64: nat, hhdm: nat)

  /** What does not change: the enabled processors in table order, and the values the boot processor passes on. */
  datatype Config = Config(cpus: seq<nat>, bsp: nat, cr3: nat, entry64: nat, hhdm: nat, abPa: nat, abVa: nat)

  /** Where the boot processor is in its loop. Fill(n) has n fields of the record written. */
  datatype BspPc = Select | Fill(n: nat) | PushArg | Patch32 | Patch64 | SendInit | SendSipi1 | SendSipi2 | AwaitReady | Finished

  /** Where a started processor is: in the trampoline up to Jumping, then in `ap_entry`. */
  datatype ApPc = Off | WaitSipi | Start | HavePtr32 | HaveCr3 | HavePtr64 | HaveStack | HaveEntry | Jumping | Copied | Online

  /** Registers of one processor, and the loop round that started it. */
  datatype Ap = Ap(pc: ApPc, round: nat, ptr32: nat, cr3: nat, ptr64: nat, rsp: nat, rcx: nat, rdi: nat, boot: Record)

  /** What a processor brings into `ap_entry`. */
  datatype Entry = Entry(round: nat, cpu: nat, cr3: nat, rsp: nat, rdi: nat, rcx: nat, boot: Record)

  datatype Smp = Smp(
    round: nat, pc: BspPc, cursor: nat, stacks: map<nat, nat>,
    shared: Record, p32: nat, p64: nat, words: map<nat, nat>,
    aps: map<nat, Ap>, log: seq<Entry>)

  datatype Event = Bsp | Timeout | Run(cpu: nat)

  /* ------------------------------ Steps ------------------------------ */

  /** The record meant for the processor that gets this stack. */
  function RecordFor(c: Config, stack: nat): Record {
    Record(0, c.cr3, stack, c.entry64, c.hhdm)
  }

  function WriteField(r: Record, full: Record, n: nat): Record {
    if n == 0 then r.(ready := full.ready)
    else if n == 1 then r.(cr3 := full.cr3)
    else if n == 2 then r.(stackTop := full.stackTop)
    else if n == 3 then r.(entry64 := full.entry64)
    else r.(hhdm := full.hhdm)
  }

  function ReadRecord(c: Config, s: Smp, ptr: nat): Record {
    if ptr == c.abPa || ptr == c.abVa then s.shared else Record(0, 0, 0, 0, 0)
  }

  function ReadWord(s: Smp, a: nat): nat { if a in s.words then s.words[a] else 0 }

  const POWERED_OFF: Ap := Ap(Off, 0, 0, 0, 0, 0, 0, 0, Record(0, 0, 0, 0, 0))

  function ApOf(s: Smp, cpu: nat): Ap { if cpu in s.aps then s.aps[cpu] else POWERED_OFF }

  /** A start-up message only has an effect on a processor that waits for one. */
  function Sipi(s: Smp, cpu: nat): Smp {
    var ap := ApOf(s, cpu);
    if ap.pc == WaitSipi then s.(aps := s.aps[cpu := ap.(pc := Start, round := s.round)]) else s
  }

  /** Inside a round there is a processor to start, and a stack for it. */
  predicate HasStack(c: Config, s: Smp) { InRound(s.pc) ==> s.round < |c.cpus| && s.round in s.stacks }

  function BspStep(c: Config, s: Smp): Smp
    requires HasStack(c, s)
  {
    match s.pc
    case Select =>
      if s.round >= |c.cpus| then s.(pc := Finished)
      else if c.cpus[s.round] == c.bsp then s.(round := s.round + 1)
      else s.(pc := Fill(0), cursor := s.cursor + STACK_BYTES,
              stacks := s.stacks[s.round := s.cursor + STACK_BYTES - 8])
    case Fill(n) =>
      if n < 5 then s.(pc := Fill(n + 1), shared := WriteField(s.shared, RecordFor(c, s.stacks[s.round]), n))
      else s.(pc := PushArg)
    case PushArg => s.(pc := Patch32, words := s.words[s.stacks[s.round] := c.abVa])
    case Patch32 => s.(pc := Patch64, p32 := c.abPa)
    case Patch64 => s.(pc := SendInit, p64 := c.abPa)
    case SendInit => s.(pc := SendSipi1, aps := s.aps[c.cpus[s.round] := POWERED_OFF.(pc := WaitSipi)])
    case SendSipi1 => Sipi(s, c.cpus[s.round]).(pc := SendSipi2)
    case SendSipi2 => Sipi(s, c.cpus[s.round]).(pc := AwaitReady)
    case AwaitReady => if s.shared.ready != 0 then s.(pc := Select, round := s.round + 1) else s
    case Finished => s
  }

  function ApStep(c: Config, s: Smp, cpu: nat): Smp {
    var ap := ApOf(s, cpu);
    match ap.pc
    case Start => s.(aps := s.aps[cpu := ap.(pc := HavePtr32, ptr32 := s.p32)])
    case HavePtr32 => s.(aps := s.aps[cpu := ap.(pc := HaveCr3, cr3 := ReadRecord(c, s, ap.ptr32).cr3)])
    case HaveCr3 => s.(aps := s.aps[cpu := ap.(pc := HavePtr64, ptr64 := s.p64)])
    case HavePtr64 => s.(aps := s.aps[cpu := ap.(pc := HaveStack, rsp := ReadRecord(c, s, ap.ptr64).stackTop)])
    case HaveStack => s.(aps := s.aps[cpu := ap.(pc := HaveEntry, rcx := ReadRecord(c, s, ap.ptr64).entry64)])
    case HaveEntry => s.(aps := s.aps[cpu := ap.(pc := Jumping, rdi := ReadWord(s, ap.rsp), rsp := ap.rsp + 8)])
    case Jumping =>
      var boot := ReadRecord(c, s, ap.rdi);
      s.(aps := s.aps[cpu := ap.(pc := Copied, boot := boot)],
         log := s.log + [Entry(ap.round, cpu, ap.cr3, ap.rsp, ap.rdi, ap.rcx, boot)])
    case Copied =>
      s.(aps := s.aps[cpu := ap.(pc := Online)],
         shared := if ap.rdi == c.abVa || ap.rdi == c.abPa then s.shared.(ready := 1) else s.shared)
    case _ => s
  }

  /** The wait gives up: the loop goes on with the next processor. */
  function TimeoutStep(s: Smp): Smp {
    if s.pc == AwaitReady then s.(pc := Select, round := s.round + 1) else s
  }

  /* ------------------------------ The invariant ------------------------------ */

  /** The processor is between its start and the store that announces it. */
  predicate Active(ap: Ap) { ap.pc !in {Off, WaitSipi, Online} }

  predicate Started(pc: BspPc) { pc == SendSipi2 || pc == AwaitReady }

  predicate InRound(pc: BspPc) { pc != Select && pc != Finished }

  /** The first n fields of the record are those of the current round. */
  predicate FieldsWritten(r: Record, full: Record, n: nat) {
    && (n > 0 ==> r.ready == full.ready) && (n > 1 ==> r.cr3 == full.cr3) && (n > 2 ==> r.stackTop == full.stackTop)
    && (n > 3 ==> r.entry64 == full.entry64) && (n > 4 ==> r.hhdm == full.hhdm)
  }

  function Progress(pc: BspPc): nat {
    match pc
    case Fill(n) => n
    case _ => 5
  }

  /** What an active processor has read so far is what was written for it. */
  predicate RegistersOk(c: Config, ap: Ap, stack: nat) {
    && (ap.pc in {HavePtr32, HaveCr3, HavePtr64, HaveStack, HaveEntry, Jumping, Copied} ==> ap.ptr32 == c.abPa)
    && (ap.pc in {HaveCr3, HavePtr64, HaveStack, HaveEntry, Jumping, Copied} ==> ap.cr3 == c.cr3)
    && (ap.pc in {HavePtr64, HaveStack, HaveEntry, Jumping, Copied} ==> ap.ptr64 == c.abPa)
    && (ap.pc in {HaveStack, HaveEntry} ==> ap.rsp == stack)
    && (ap.pc in {HaveEntry, Jumping, Copied} ==> ap.rcx == c.entry64)
    && (ap.pc in {Jumping, Copied} ==> ap.rsp == stack + 8 && ap.rdi == c.abVa)
    && (ap.pc == Copied ==> ap.boot == RecordFor(c, stack))
  }

  /** Only the processor of the current round is active, only once the round has started it, and it has read what was
      written for it. */
  ghost predicate ApsOk(c: Config, s: Smp) {
    forall cpu :: cpu in s.aps && Active(s.aps[cpu]) ==>
      && Started(s.pc) && s.round < |c.cpus| && s.round in s.stacks && cpu == c.cpus[s.round]
      && s.aps[cpu].round == s.round && s.shared.ready == 0
      && RegistersOk(c, s.aps[cpu], s.stacks[s.round])
  }

  /** The shared memory during a round. */
  ghost predicate SharedOk(c: Config, s: Smp) {
    InRound(s.pc) ==>
      && s.round < |c.cpus| && s.round in s.stacks
      && FieldsWritten(if Started(s.pc) then s.shared.(ready := 0) else s.shared, RecordFor(c, s.stacks[s.round]), Progress(s.pc))
      && (s.pc.Fill? ==> s.pc.n <= 5)
      && (s.pc in {Patch32, Patch64, SendInit, SendSipi1, SendSipi2, AwaitReady} ==> ReadWord(s, s.stacks[s.round]) == c.abVa)
      && (s.pc in {Patch64, SendInit, SendSipi1, SendSipi2, AwaitReady} ==> s.p32 == c.abPa)
      && (s.pc in {SendInit, SendSipi1, SendSipi2, AwaitReady} ==> s.p64 == c.abPa)
      && (s.pc == SendSipi1 ==> ApOf(s, c.cpus[s.round]).pc == WaitSipi)
      && (Started(s.pc) ==> ApOf(s, c.cpus[s.round]).round == s.round && ApOf(s, c.cpus[s.round]).pc !in {Off, WaitSipi})
      && (Started(s.pc) ==> (s.shared.ready != 0 <==> ApOf(s, c.cpus[s.round]).pc == Online))
  }

  /** Stacks are handed out upwards, one per round. */
  ghost predicate StacksOk(s: Smp) {
    && (forall k :: k in s.stacks ==> k <= s.round && (k == s.round ==> InRound(s.pc)))
    && (forall k :: k in s.stacks ==> s.stacks[k] + 8 <= s.cursor)
    && (forall j, k :: j in s.stacks && k in s.stacks && j < k ==> s.stacks[j] + STACK_BYTES <= s.stacks[k])
  }

  /** Each entry so far belongs to its own round and carries what that round wrote. */
  ghost predicate LogOk(c: Config, s: Smp) {
    && (forall i :: 0 <= i < |s.log| ==> EntryOk(c, s, s.log[i]))
    && (forall i, j :: 0 <= i < j < |s.log| ==> s.log[i].round < s.log[j].round)
  }

  ghost predicate EntryOk(c: Config, s: Smp, e: Entry) {
    && e.round in s.stacks && e.round < |c.cpus| && e.cpu == c.cpus[e.round]
    && e.cr3 == c.cr3 && e.rcx == c.entry64
    && e.rsp == s.stacks[e.round] + 8 && e.rdi == c.abVa && e.boot == RecordFor(c, s.stacks[e.round])
    && (e.round == s.round ==> Started(s.pc) && ApOf(s, e.cpu).pc in {Copied, Online})
  }

  ghost predicate Inv(c: Config, s: Smp) {
    ApsOk(c, s) && SharedOk(c, s) && StacksOk(s) && LogOk(c, s)
  }

  /* ------------------------------ Runs ------------------------------ */

  /** A timeout is late if the processor it gave up on is still on its way. */
  ghost predicate LateTimeout(s: Smp, e: Event) {
    e == Timeout && s.pc == AwaitReady && exists cpu :: cpu in s.aps && Active(s.aps[cpu])
  }

  function Step(c: Config, s: Smp, e: Event): Smp {
    match e
    case Bsp => if HasStack(c, s) then BspStep(c, s) else s
    case Timeout => TimeoutStep(s)
    case Run(cpu) => ApStep(c, s, cpu)
  }

  lemma BspKeeps(c: Config, s: Smp)
    requires Inv(c, s)
    ensures Inv(c, BspStep(c, s))
  {
    hide ApsOk, SharedOk, StacksOk, LogOk, BspStep;
    BspAps(c, s);
    BspShared(c, s);
    BspStacks(c, s);
    BspLog(c, s);
  }

  lemma BspAps(c: Config, s: Smp)
    requires Inv(c, s)
    ensures ApsOk(c, BspStep(c, s))
  {
    hide StacksOk, LogOk, ReadWord;
    if s.pc != SendSipi1 {
      hide RegistersOk, FieldsWritten;
    }
  }

  lemma BspShared(c: Config, s: Smp)
    requires Inv(c, s)
    ensures SharedOk(c, BspStep(c, s))
  {
    hide StacksOk, LogOk, RegistersOk;
    match s.pc {
      case Fill(n) =>
        hide ApsOk;
      case _ =>
        hide FieldsWritten, RecordFor;
    }
  }

  lemma BspStacks(c: Config, s: Smp)
    requires Inv(c, s)
    ensures HasStack(c, s) && StacksOk(BspStep(c, s))
  {
    hide ApsOk, LogOk, SharedOk, WriteField, RecordFor, Sipi, BspStep, HasStack;
    RoundHasStack(c, s);
    BspStackStep(c, s);
  }

  /** A stack is added at the start of a round and at no other step. */
  lemma BspStackStep(c: Config, s: Smp)
    requires HasStack(c, s)
    ensures var s' := BspStep(c, s);
            && (s.pc == Select && s'.pc != Fill(0) ==> s'.stacks == s.stacks && s'.cursor == s.cursor && s.round <= s'.round)
            && (s.pc == Select && s'.pc == Fill(0) ==>
                  s'.cursor == s.cursor + STACK_BYTES && s'.round == s.round
                  && s'.stacks == s.stacks[s.round := s.cursor + STACK_BYTES - 8])
            && (s.pc != Select ==> s'.stacks == s.stacks && s'.cursor == s.cursor
                                   && (s'.round == s.round + 1 || (s'.round == s.round && (InRound(s.pc) ==> InRound(s'.pc)))))
  {
    hide WriteField, RecordFor, Sipi;
    SipiKeepsStacks(s, c);
  }

  lemma SipiKeepsStacks(s: Smp, c: Config)
    ensures forall cpu :: Sipi(s, cpu).stacks == s.stacks && Sipi(s, cpu).cursor == s.cursor && Sipi(s, cpu).round == s.round
  {
  }

  lemma BspLog(c: Config, s: Smp)
    requires Inv(c, s)
    ensures HasStack(c, s) && LogOk(c, BspStep(c, s))
  {
    hide ApsOk, SharedOk, StacksOk, EntryOk, BspStep, HasStack;
    RoundHasStack(c, s);
    var s' := BspStep(c, s);
    BspKeepsLog(c, s);
    forall i | 0 <= i < |s'.log|
      ensures EntryOk(c, s', s'.log[i])
    {
      BspEntry(c, s, s.log[i]);
    }
  }

  lemma BspKeepsLog(c: Config, s: Smp)
    requires HasStack(c, s)
    ensures BspStep(c, s).log == s.log
  {
  }

  lemma BspEntry(c: Config, s: Smp, e: Entry)
    requires Inv(c, s) && HasStack(c, s) && EntryOk(c, s, e)
    ensures EntryOk(c, BspStep(c, s), e)
  {
    hide ApsOk, LogOk, FieldsWritten, WriteField, RecordFor, RegistersOk, ReadWord;
  }

  lemma ApKeeps(c: Config, s: Smp, cpu: nat)
    requires Inv(c, s)
    ensures Inv(c, ApStep(c, s, cpu))
  {
    hide ApsOk, SharedOk, StacksOk, LogOk, ApStep;
    ApAps(c, s, cpu);
    ApShared(c, s, cpu);
    ApLog(c, s, cpu);
  }

  lemma ApAps(c: Config, s: Smp, cpu: nat)
    requires Inv(c, s)
    ensures ApsOk(c, ApStep(c, s, cpu))
  {
    hide StacksOk, LogOk;
  }

  lemma ApShared(c: Config, s: Smp, cpu: nat)
    requires Inv(c, s)
    ensures SharedOk(c, ApStep(c, s, cpu)) && StacksOk(ApStep(c, s, cpu))
  {
    hide LogOk;
    if ApOf(s, cpu).pc != Copied {
      hide RegistersOk, FieldsWritten, RecordFor;
    }
  }

  lemma ApLog(c: Config, s: Smp, cpu: nat)
    requires Inv(c, s)
    ensures LogOk(c, ApStep(c, s, cpu))
  {
    if ApOf(s, cpu).pc != Jumping {
      hide RegistersOk, FieldsWritten, RecordFor, StacksOk;
    }
  }

  /** A timeout that is not late finds the processor online: it ends the round like the answer it missed. */
  lemma TimelyTimeout(c: Config, s: Smp)
    requires Inv(c, s) && !LateTimeout(s, Timeout)
    ensures Inv(c, TimeoutStep(s))
  {
    if s.pc == AwaitReady {
      assert ApOf(s, c.cpus[s.round]).pc == Online;
      assert TimeoutStep(s) == BspStep(c, s);
      BspKeeps(c, s);
    }
  }

  /** The run goes on for the given events without a late timeout. */
  ghost predicate Timely(c: Config, s: Smp, es: seq<Event>)
    decreases |es|
  {
    es == [] || (!LateTimeout(s, es[0]) && Timely(c, Step(c, s, es[0]), es[1..]))
  }

  function End(c: Config, s: Smp, es: seq<Event>): Smp
    decreases |es|
  {
    if es == [] then s else End(c, Step(c, s, es[0]), es[1..])
  }

  /** The only step that breaks the invariant is a late timeout, and it always does. */
  lemma StepKeepsIffTimely(c: Config, s: Smp, e: Event)
    requires Inv(c, s)
    ensures Inv(c, Step(c, s, e)) <==> !LateTimeout(s, e)
  {
    hide SharedOk, StacksOk, LogOk, RegistersOk, BspStep, ApStep;
    RoundHasStack(c, s);
    match e {
      case Bsp => BspKeeps(c, s);
      case Timeout =>
        if LateTimeout(s, Timeout) {
          var cpu :| cpu in s.aps && Active(s.aps[cpu]);
          assert !Started(TimeoutStep(s).pc) && cpu in TimeoutStep(s).aps;
        } else {
          TimelyTimeout(c, s);
        }
      case Run(cpu) => ApKeeps(c, s, cpu);
    }
  }

  lemma RoundHasStack(c: Config, s: Smp)
    requires Inv(c, s)
    ensures HasStack(c, s)
  {
  }

  /** Before the loop: no processor started, whatever the shared memory holds. */
  function Boot(stackBase: nat, shared: Record, p32: nat, p64: nat, words: map<nat, nat>): Smp {
    Smp(0, Select, stackBase, map[], shared, p32, p64, words, map[], [])
  }

  /* ------------------------------ Late timeouts that do no harm ------------------------------ */

  /** After round r there is no other processor to start. */
  ghost predicate LastRound(c: Config, r: nat) {
    forall k :: r < k < |c.cpus| ==> c.cpus[k] == c.bsp
  }

  /** The state as it would be with the boot processor still waiting in round r. */
  function Rewound(s: Smp, r: nat): Smp { s.(pc := AwaitReady, round := r) }

  /** The boot processor has given up on the last round and has nothing left to start. */
  ghost predicate Retired(c: Config, s: Smp, r: nat) {
    s.pc in {Select, Finished} && r < s.round && LastRound(c, r) && Inv(c, Rewound(s, r))
  }

  lemma RetiredStep(c: Config, s: Smp, r: nat, e: Event)
    requires Retired(c, s, r)
    ensures Retired(c, Step(c, s, e), r)
  {
    hide Inv, ApStep;
    match e {
      case Bsp =>
        assert Rewound(Step(c, s, e), r) == Rewound(s, r);
      case Timeout =>
      case Run(cpu) =>
        ApKeeps(c, Rewound(s, r), cpu);
        ApIgnoresBsp(c, s, cpu, r);
    }
  }

  /** A processor reads nothing of the boot processor's own state. */
  lemma ApIgnoresBsp(c: Config, s: Smp, cpu: nat, r: nat)
    ensures ApStep(c, Rewound(s, r), cpu) == Rewound(ApStep(c, s, cpu), r)
    ensures ApStep(c, s, cpu).pc == s.pc && ApStep(c, s, cpu).round == s.round
  {
    RewoundReads(c, s, cpu, r);
    hide ApOf, ReadRecord, ReadWord;
    match ApOf(s, cpu).pc {
      case Start =>
      case HavePtr32 =>
      case HaveCr3 =>
      case HavePtr64 =>
      case HaveStack =>
      case HaveEntry =>
      case Jumping =>
      case Copied =>
      case _ =>
    }
  }

  lemma RewoundReads(c: Config, s: Smp, cpu: nat, r: nat)
    ensures ApOf(Rewound(s, r), cpu) == ApOf(s, cpu)
    ensures forall ptr :: ReadRecord(c, Rewound(s, r), ptr) == ReadRecord(c, s, ptr)
    ensures forall a :: ReadWord(Rewound(s, r), a) == ReadWord(s, a)
  {
  }

  lemma {:induction false} RetiredRun(c: Config, s: Smp, r: nat, es: seq<Event>)
    requires Retired(c, s, r)
    ensures Retired(c, End(c, s, es), r)
    decreases |es|
  {
    hide Retired, Step;
    if es != [] {
      RetiredStep(c, s, r, es[0]);
      RetiredRun(c, Step(c, s, es[0]), r, es[1..]);
    }
  }

  lemma LateInLastRound(c: Config, s: Smp)
    requires Inv(c, s) && s.pc == AwaitReady && LastRound(c, s.round)
    ensures Retired(c, TimeoutStep(s), s.round)
  {
    hide Inv;
    assert Rewound(TimeoutStep(s), s.round) == s;
  }

  /** A timeout does harm if it is late and there is another processor to start. */
  ghost predicate Harmful(c: Config, s: Smp, e: Event) { LateTimeout(s, e) && !LastRound(c, s.round) }

  ghost predicate Harmless(c: Config, s: Smp, es: seq<Event>)
    decreases |es|
  {
    es == [] || (!Harmful(c, s, es[0]) && Harmless(c, Step(c, s, es[0]), es[1..]))
  }

  ghost predicate Safe(c: Config, s: Smp) { Inv(c, s) || exists r :: Retired(c, s, r) }

  lemma SafeStep(c: Config, s: Smp, e: Event)
    requires Safe(c, s) && !Harmful(c, s, e)
    ensures Safe(c, Step(c, s, e))
  {
    hide Inv, Retired, Step, LastRound;
    if Inv(c, s) {
      StepKeepsIffTimely(c, s, e);
      if LateTimeout(s, e) {
        LateInLastRound(c, s);
        TimeoutIs(c, s);
      }
    } else {
      var r :| Retired(c, s, r);
      RetiredStep(c, s, r, e);
    }
  }

  lemma TimeoutIs(c: Config, s: Smp)
    ensures Step(c, s, Timeout) == TimeoutStep(s)
  {
  }

  lemma {:induction false} SafeRun(c: Config, s: Smp, es: seq<Event>)
    requires Safe(c, s) && Harmless(c, s, es)
    ensures Safe(c, End(c, s, es))
    decreases |es|
  {
    hide Safe, Step, Harmful;
    if es != [] {
      SafeStep(c, s, es[0]);
      SafeRun(c, Step(c, s, es[0]), es[1..]);
    }
  }

  /** Every stack handed out so far lies, with its whole 32 KiB, above the given address and below the cursor. */
  predicate StacksAbove(s: Smp, base: nat) {
    base <= s.cursor && forall k :: k in s.stacks ==> base + 0x8000 <= s.stacks[k] + 8 <= s.cursor
  }

  lemma StacksAboveStep(c: Config, s: Smp, e: Event, base: nat)
    requires StacksAbove(s, base)
    ensures StacksAbove(Step(c, s, e), base)
  {
    match e {
      case Bsp =>
        if HasStack(c, s) {
          BspStackStep(c, s);
        }
        hide BspStep;
      case Timeout =>
      case Run(cpu) =>
        ApKeepsStacks(c, s, cpu);
        hide ApStep;
    }
  }

  lemma ApKeepsStacks(c: Config, s: Smp, cpu: nat)
    ensures var s' := ApStep(c, s, cpu);
            s'.stacks == s.stacks && s'.cursor == s.cursor && s'.round == s.round && s'.pc == s.pc
  {
    hide ReadRecord, ReadWord;
  }

  lemma {:induction false} StacksAboveRun(c: Config, s: Smp, es: seq<Event>, base: nat)
    requires StacksAbove(s, base)
    ensures StacksAbove(End(c, s, es), base)
    decreases |es|
  {
    hide Step, StacksAbove;
    if es != [] {
      StacksAboveStep(c, s, es[0], base);
      StacksAboveRun(c, Step(c, s, es[0]), es[1..], base);
    }
  }

  /** Every round that has chosen a processor has taken 32 KiB for its stack, and nothing else has taken any. */
  predicate StackPerRound(s: Smp, base: nat) {
    s.cursor == base + 0x8000 * |s.stacks| && forall k :: k in s.stacks ==> k < s.round || (k == s.round && InRound(s.pc))
  }

  lemma StackPerRoundStep(c: Config, s: Smp, e: Event, base: nat)
    requires StackPerRound(s, base)
    ensures StackPerRound(Step(c, s, e), base)
  {
    match e {
      case Bsp =>
        if HasStack(c, s) {
          BspStackStep(c, s);
          if s.pc == Select {
            assert s.round !in s.stacks;
          }
        }
        hide BspStep;
      case Timeout =>
      case Run(cpu) =>
        ApKeepsStacks(c, s, cpu);
        hide ApStep;
    }
  }

  lemma {:induction false} StackPerRoundRun(c: Config, s: Smp, es: seq<Event>, base: nat)
    requires StackPerRound(s, base)
    ensures StackPerRound(End(c, s, es), base)
    decreases |es|
  {
    hide Step, StackPerRound;
    if es != [] {
      StackPerRoundStep(c, s, es[0], base);
      StackPerRoundRun(c, Step(c, s, es[0]), es[1..], base);
    }
  }

  /** In every interleaving without a harmful timeout, every processor that enters `ap_entry` runs on the kernel's page
      tables and has jumped where the boot processor said, with the record's address for an argument; its copy of the
      record says what the boot processor knows; its stack is its own, with 32 KiB of the memory for stacks below it,
      and that memory holds 32 KiB for each processor chosen so far; and the boot processor is never writing the record
      or the trampoline while a processor it started has yet to announce itself. */
  lemma Handshake(c: Config, stackBase: nat, shared: Record, p32: nat, p64: nat, words: map<nat, nat>, es: seq<Event>)
    requires Harmless(c, Boot(stackBase, shared, p32, p64, words), es)
    ensures var s := End(c, Boot(stackBase, shared, p32, p64, words), es);
            && (forall i :: 0 <= i < |s.log| ==>
                  var e := s.log[i];
                  && e.round < |c.cpus| && e.cpu == c.cpus[e.round]
                  && e.cr3 == c.cr3 && e.rcx == c.entry64 && e.rdi == c.abVa
                  && e.boot.ready == 0 && e.boot.cr3 == c.cr3 && e.boot.stackTop == e.rsp - 8
                  && e.boot.entry64 == c.entry64 && e.boot.hhdm == c.hhdm
                  && stackBase + 0x8000 <= e.rsp <= s.cursor)
            && (forall i, j :: 0 <= i < j < |s.log| ==> s.log[i].rsp + 0x8000 <= s.log[j].rsp)
            && s.cursor == stackBase + 0x8000 * |s.stacks|
            && (forall cpu :: cpu in s.aps && Active(s.aps[cpu]) ==> !(s.pc.Fill? || s.pc in {PushArg, Patch32, Patch64}))
  {
    var s0 := Boot(stackBase, shared, p32, p64, words);
    assert Inv(c, s0);
    StacksAboveRun(c, s0, es, stackBase);
    StackPerRoundRun(c, s0, es, stackBase);
    hide Step, Harmful;
    SafeRun(c, s0, es);
    var s := End(c, s0, es);
    hide End;
    if Inv(c, s) {
      HandshakeHolds(c, s, stackBase);
    } else {
      var r :| Retired(c, s, r);
      HandshakeHolds(c, Rewound(s, r), stackBase);
    }
  }

  lemma HandshakeHolds(c: Config, s: Smp, base: nat)
    requires Inv(c, s) && StacksAbove(s, base)
    ensures forall i :: 0 <= i < |s.log| ==>
              var e := s.log[i];
              && e.round < |c.cpus| && e.cpu == c.cpus[e.round]
              && e.cr3 == c.cr3 && e.rcx == c.entry64 && e.rdi == c.abVa
              && e.boot.ready == 0 && e.boot.cr3 == c.cr3 && e.boot.stackTop == e.rsp - 8
              && e.boot.entry64 == c.entry64 && e.boot.hhdm == c.hhdm
              && base + 0x8000 <= e.rsp <= s.cursor
    ensures forall i, j :: 0 <= i < j < |s.log| ==> s.log[i].rsp + 0x8000 <= s.log[j].rsp
    ensures forall cpu :: cpu in s.aps && Active(s.aps[cpu]) ==> !(s.pc.Fill? || s.pc in {PushArg, Patch32, Patch64})
  {
    hide SharedOk, RegistersOk;
    forall i | 0 <= i < |s.log|
      ensures EntryOk(c, s, s.log[i])
    {
    }
  }

  /* ------------------------------ Everyone is started ------------------------------ */

  ghost predicate Entered(s: Smp, k: nat) { exists i :: 0 <= i < |s.log| && s.log[i].round == k }

  /** Every round that is over, or whose processor has got that far, has its entry. */
  ghost predicate Complete(c: Config, s: Smp) {
    && (s.pc == Finished ==> s.round >= |c.cpus|)
    && (forall k :: 0 <= k < s.round && k < |c.cpus| && c.cpus[k] != c.bsp ==> Entered(s, k))
    && (Started(s.pc) && s.round < |c.cpus| && ApOf(s, c.cpus[s.round]).pc in {Copied, Online} ==> Entered(s, s.round))
  }

  lemma LogGrows(s: Smp, s': Smp, k: nat)
    requires Entered(s, k) && s.log <= s'.log
    ensures Entered(s', k)
  {
    var i :| 0 <= i < |s.log| && s.log[i].round == k;
    assert s'.log[i].round == k;
  }

  lemma BspCompletes(c: Config, s: Smp)
    requires Inv(c, s) && Complete(c, s)
    ensures HasStack(c, s) && Complete(c, BspStep(c, s))
  {
    hide ApsOk, StacksOk, LogOk, RegistersOk, FieldsWritten, WriteField, RecordFor, ReadWord;
    var s' := BspStep(c, s);
    assert s'.log == s.log;
    assert forall k :: Entered(s', k) <==> Entered(s, k);
  }

  lemma ApCompletes(c: Config, s: Smp, cpu: nat)
    requires Inv(c, s) && Complete(c, s)
    ensures Complete(c, ApStep(c, s, cpu))
  {
    hide SharedOk, StacksOk, LogOk, RegistersOk, Entered, ApStep;
    var s' := ApStep(c, s, cpu);
    ApEffect(c, s, cpu);
    forall k | Entered(s, k)
      ensures Entered(s', k)
    {
      LogGrows(s, s', k);
    }
    if ApOf(s, cpu).pc == Jumping {
      LastEntered(s', s.round);
    }
  }

  lemma ApEffect(c: Config, s: Smp, cpu: nat)
    ensures var s' := ApStep(c, s, cpu);
            && s'.pc == s.pc && s'.round == s.round && s.log <= s'.log
            && (forall other :: other != cpu ==> ApOf(s', other) == ApOf(s, other))
            && (ApOf(s', cpu).pc in {Copied, Online} ==> ApOf(s, cpu).pc in {Jumping, Copied, Online})
            && (ApOf(s, cpu).pc == Jumping ==> |s'.log| > 0 && s'.log[|s'.log| - 1].round == ApOf(s, cpu).round)
  {
  }

  lemma LastEntered(s: Smp, k: nat)
    requires |s.log| > 0 && s.log[|s.log| - 1].round == k
    ensures Entered(s, k)
  {
  }

  lemma StepCompletes(c: Config, s: Smp, e: Event)
    requires Inv(c, s) && Complete(c, s) && !LateTimeout(s, e)
    ensures Complete(c, Step(c, s, e))
  {
    hide Complete, SharedOk, StacksOk, LogOk, RegistersOk, BspStep, ApStep;
    match e {
      case Bsp => BspCompletes(c, s);
      case Timeout => TimelyIsBsp(c, s);
      case Run(cpu) => ApCompletes(c, s, cpu);
    }
  }

  lemma TimelyIsBsp(c: Config, s: Smp)
    requires Inv(c, s) && Complete(c, s) && !LateTimeout(s, Timeout)
    ensures Complete(c, TimeoutStep(s))
  {
    BspCompletes(c, s);
    if s.pc == AwaitReady {
      assert ApOf(s, c.cpus[s.round]).pc == Online;
    }
  }

  lemma {:induction false} RunCompletes(c: Config, s: Smp, es: seq<Event>)
    requires Inv(c, s) && Complete(c, s) && Timely(c, s, es)
    ensures Inv(c, End(c, s, es)) && Complete(c, End(c, s, es))
    decreases |es|
  {
    hide Inv, Complete, Step, LateTimeout;
    if es != [] {
      StepKeepsIffTimely(c, s, es[0]);
      StepCompletes(c, s, es[0]);
      RunCompletes(c, Step(c, s, es[0]), es[1..]);
    }
  }

  /** When the boot processor's loop is over, in any interleaving without a late timeout, every other processor of the
      list has entered `ap_entry`, in list order and exactly once for each time it is listed. */
  lemma AllStarted(c: Config, stackBase: nat, shared: Record, p32: nat, p64: nat, words: map<nat, nat>, es: seq<Event>, k: nat)
    returns (i: nat)
    requires Timely(c, Boot(stackBase, shared, p32, p64, words), es)
    requires End(c, Boot(stackBase, shared, p32, p64, words), es).pc == Finished
    requires k < |c.cpus| && c.cpus[k] != c.bsp
    ensures var log := End(c, Boot(stackBase, shared, p32, p64, words), es).log;
            && i < |log| && log[i].round == k && log[i].cpu == c.cpus[k]
            && (forall j :: 0 <= j < |log| && log[j].round == k ==> j == i)
            && forall j :: 0 <= j < |log| ==> (j < i <==> log[j].round < k)
  {
    hide Step, LateTimeout, ApsOk, SharedOk, RegistersOk;
    var s0 := Boot(stackBase, shared, p32, p64, words);
    BootInv(c, stackBase, shared, p32, p64, words);
    RunCompletes(c, s0, es);
    var s := End(c, s0, es);
    assert Entered(s, k);
    i :| 0 <= i < |s.log| && s.log[i].round == k;
    assert EntryOk(c, s, s.log[i]);
  }

  lemma BootInv(c: Config, stackBase: nat, shared: Record, p32: nat, p64: nat, words: map<nat, nat>)
    ensures Inv(c, Boot(stackBase, shared, p32, p64, words)) && Complete(c, Boot(stackBase, shared, p32, p64, words))
  {
  }

  /* ------------------------------ Late timeouts ------------------------------ */

  /** The boot processor is about to write a field of the record, and processor cpu of round r, which the record was
      filled for before, has yet to announce itself. */
  predicate OverwriteDue(s: Smp, cpu: nat, r: nat) {
    s.pc.Fill? && s.pc.n < 5 && cpu in s.aps && Active(s.aps[cpu]) && s.aps[cpu].round == r
  }

  /** From the choice of a round on, the boot processor alone gets to the next processor in the list. */
  lemma {:induction false} ReachFill(c: Config, s: Smp, cpu: nat, r: nat, k: nat) returns (es: seq<Event>)
    requires s.pc == Select && s.round <= k < |c.cpus| && c.cpus[k] != c.bsp
    requires cpu in s.aps && Active(s.aps[cpu]) && s.aps[cpu].round == r
    ensures OverwriteDue(End(c, s, es), cpu, r)
    decreases k - s.round
  {
    var s' := Step(c, s, Bsp);
    if c.cpus[s.round] == c.bsp {
      var rest := ReachFill(c, s', cpu, r, k);
      es := [Bsp] + rest;
      assert es[1..] == rest;
    } else {
      es := [Bsp];
      assert End(c, s', es[1..]) == s';
    }
  }

  /** After the wait for a processor gave up too early, some continuation has the record overwritten under it if and
      only if the list has another processor to start, however many entries of the boot processor come first. */
  lemma LateTimeoutOverwritesIff(c: Config, s: Smp, cpu: nat)
    requires Inv(c, s) && s.pc == AwaitReady && cpu in s.aps && Active(s.aps[cpu])
    ensures (exists es :: OverwriteDue(End(c, TimeoutStep(s), es), cpu, s.round)) <==> !LastRound(c, s.round)
  {
    hide SharedOk, StacksOk, LogOk, RegistersOk, Step, End;
    if LastRound(c, s.round) {
      forall es
        ensures !OverwriteDue(End(c, TimeoutStep(s), es), cpu, s.round)
      {
        LateInLastRound(c, s);
        RetiredRun(c, TimeoutStep(s), s.round, es);
      }
    } else {
      var k :| s.round < k < |c.cpus| && c.cpus[k] != c.bsp;
      var es := ReachFill(c, TimeoutStep(s), cpu, s.round, k);
      assert OverwriteDue(End(c, TimeoutStep(s), es), cpu, s.round);
    }
  }

  /** ... and if it was about to load its stack, it loads the next processor's. */
  lemma LateProcessorTakesWrongStack(c: Config, s: Smp, cpu: nat)
    requires Inv(c, s) && s.pc == AwaitReady && cpu in s.aps && s.aps[cpu].pc == HavePtr64
    requires s.round + 1 < |c.cpus| && c.cpus[s.round + 1] != c.bsp
    ensures TimeoutStep(s).pc == Select
    ensures BspStep(c, TimeoutStep(s)).pc == Fill(0) && s.round + 1 in BspStep(c, TimeoutStep(s)).stacks
    ensures var s2 := BspStep(c, TimeoutStep(s));
            var s3 := BspStep(c, BspStep(c, BspStep(c, s2)));
            ApOf(ApStep(c, s3, cpu), cpu).rsp == s2.stacks[s.round + 1] != s.stacks[s.round]
  {
    var s2 := BspStep(c, TimeoutStep(s));
    var full := RecordFor(c, s2.stacks[s2.round]);
    var a := BspStep(c, s2);
    assert a.pc == Fill(1) && a.stacks == s2.stacks && a.round == s2.round && a.aps == s.aps;
    var b := BspStep(c, a);
    assert b.pc == Fill(2) && b.stacks == s2.stacks && b.round == s2.round && b.aps == s.aps;
    var s3 := BspStep(c, b);
    assert s3.shared.stackTop == full.stackTop && s3.aps == s.aps;
  }
}

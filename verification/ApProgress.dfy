/** The start-up loop can always be brought to its end. */
module ApProgress {

  import opened ApStartup

  /** The processor of the current round is on its way to announcing itself. */
  predicate OnCourse(c: Config, ap: Ap, stack: nat) {
    && (ap.pc in {HavePtr64, HaveStack, HaveEntry} ==> ap.ptr64 == c.abPa)
    && (ap.pc in {HaveStack, HaveEntry} ==> ap.rsp == stack)
    && (ap.pc in {Jumping, Copied} ==> ap.rdi == c.abVa)
  }

  /** What holds of the current round in every run, late timeouts included. */
  predicate Live(c: Config, s: Smp) {
    InRound(s.pc) ==>
      && s.round < |c.cpus| && s.round in s.stacks && c.cpus[s.round] != c.bsp
      && (s.pc.Fill? ==> s.pc.n <= 5)
      && (Progress(s.pc) > 2 ==> s.shared.stackTop == s.stacks[s.round])
      && (s.pc in {Patch32, Patch64, SendInit, SendSipi1, SendSipi2, AwaitReady} ==> ReadWord(s, s.stacks[s.round]) == c.abVa)
      && (s.pc in {SendInit, SendSipi1, SendSipi2, AwaitReady} ==> s.p64 == c.abPa)
      && (s.pc == SendSipi1 ==> ApOf(s, c.cpus[s.round]).pc == WaitSipi)
      && (Started(s.pc) ==>
            && ApOf(s, c.cpus[s.round]).pc !in {Off, WaitSipi}
            && OnCourse(c, ApOf(s, c.cpus[s.round]), s.stacks[s.round])
            && (ApOf(s, c.cpus[s.round]).pc == Online ==> s.shared.ready != 0))
  }

  lemma LiveBsp(c: Config, s: Smp)
    requires Live(c, s)
    ensures HasStack(c, s) && Live(c, BspStep(c, s))
  {
    hide ReadRecord;
  }

  lemma LiveAp(c: Config, s: Smp, cpu: nat)
    requires Live(c, s)
    ensures Live(c, ApStep(c, s, cpu))
  {
    ApFrame(c, s, cpu);
    ApMoves(c, s, cpu, if s.round in s.stacks then s.stacks[s.round] else 0);
    hide ApStep, ReadRecord, OnCourse;
  }

  /** What a step of one processor leaves alone. */
  lemma ApFrame(c: Config, s: Smp, cpu: nat)
    ensures var s' := ApStep(c, s, cpu);
            && s'.pc == s.pc && s'.round == s.round && s'.stacks == s.stacks && s'.words == s.words && s'.p64 == s.p64
            && s'.shared.stackTop == s.shared.stackTop && (s'.shared.ready == s.shared.ready || s'.shared.ready == 1)
            && (forall other :: other != cpu ==> ApOf(s', other) == ApOf(s, other))
  {
    hide ReadRecord, ReadWord;
  }

  /** A processor on course stays on course. */
  lemma ApMoves(c: Config, s: Smp, cpu: nat, stack: nat)
    ensures var (ap, ap') := (ApOf(s, cpu), ApOf(ApStep(c, s, cpu), cpu));
            && (ap'.pc in {Off, WaitSipi} <==> ap.pc in {Off, WaitSipi})
            && (OnCourse(c, ap, stack) && s.p64 == c.abPa && s.shared.stackTop == stack && ReadWord(s, stack) == c.abVa ==>
                  OnCourse(c, ap', stack))
            && (ap'.pc == Online && ap.pc != Online && OnCourse(c, ap, stack) ==> ApStep(c, s, cpu).shared.ready == 1)
  {
  }

  lemma LiveStep(c: Config, s: Smp, e: Event)
    requires Live(c, s)
    ensures Live(c, Step(c, s, e))
  {
    hide Live, ApStep, BspStep;
    match e {
      case Bsp => LiveBsp(c, s);
      case Timeout => LiveTimeout(c, s);
      case Run(cpu) => LiveAp(c, s, cpu);
    }
  }

  lemma LiveTimeout(c: Config, s: Smp)
    requires Live(c, s)
    ensures Live(c, TimeoutStep(s))
  {
  }

  lemma {:induction false} LiveRun(c: Config, s: Smp, es: seq<Event>)
    requires Live(c, s)
    ensures Live(c, End(c, s, es))
    decreases |es|
  {
    hide Live, Step;
    if es != [] {
      LiveStep(c, s, es[0]);
      LiveRun(c, Step(c, s, es[0]), es[1..]);
    }
  }

  function RoundsLeft(c: Config, s: Smp): nat { if s.round < |c.cpus| then |c.cpus| - s.round else 0 }

  /** Steps that the boot processor still has to take in its round. */
  function BspLeft(pc: BspPc): nat {
    match pc
    case Select => 20
    case Fill(n) => if n <= 5 then 19 - n else 0
    case PushArg => 13
    case Patch32 => 12
    case Patch64 => 11
    case SendInit => 10
    case SendSipi1 => 9
    case SendSipi2 => 8
    case AwaitReady => 7
    case Finished => 0
  }

  /** Steps that a started processor still has to take. */
  function ApLeft(pc: ApPc): nat {
    match pc
    case Start => 8
    case HavePtr32 => 7
    case HaveCr3 => 6
    case HavePtr64 => 5
    case HaveStack => 4
    case HaveEntry => 3
    case Jumping => 2
    case Copied => 1
    case _ => 0
  }

  /** The step that brings the loop forward: of the processor it waits for, or of the boot processor. */
  function Forward(c: Config, s: Smp): Event {
    if s.pc == AwaitReady && s.shared.ready == 0 && s.round < |c.cpus| then Run(c.cpus[s.round]) else Bsp
  }

  function CurrentLeft(c: Config, s: Smp): nat {
    if s.pc == AwaitReady && s.round < |c.cpus| then ApLeft(ApOf(s, c.cpus[s.round]).pc) else 0
  }

  lemma ForwardBsp(c: Config, s: Smp)
    requires Live(c, s) && s.pc != Finished && Forward(c, s) == Bsp
    ensures var s' := Step(c, s, Bsp);
            RoundsLeft(c, s') < RoundsLeft(c, s) || (RoundsLeft(c, s') == RoundsLeft(c, s) && BspLeft(s'.pc) < BspLeft(s.pc))
  {
    hide ReadWord, ReadRecord, OnCourse, WriteField, RecordFor, ApOf;
  }

  lemma ForwardAp(c: Config, s: Smp)
    requires Live(c, s) && Forward(c, s).Run?
    ensures var s' := Step(c, s, Forward(c, s));
            s'.round == s.round && s'.pc == s.pc && CurrentLeft(c, s') < CurrentLeft(c, s)
  {
    hide ReadWord, ReadRecord, OnCourse;
  }

  /** From every such state the loop can finish, without a timeout. */
  lemma {:induction false} Finishes(c: Config, s: Smp) returns (es: seq<Event>)
    requires Live(c, s)
    ensures Timeout !in es && End(c, s, es).pc == Finished
    decreases RoundsLeft(c, s), BspLeft(s.pc), CurrentLeft(c, s)
  {
    hide Live, Step, RoundsLeft, BspLeft, CurrentLeft, Forward;
    if s.pc == Finished {
      es := [];
    } else {
      var e := Forward(c, s);
      ForwardIs(c, s);
      if e == Bsp {
        ForwardBsp(c, s);
      } else {
        ForwardAp(c, s);
        SameRound(c, s, Step(c, s, e));
      }
      LiveStep(c, s, e);
      var rest := Finishes(c, Step(c, s, e));
      es := [e] + rest;
      assert es[1..] == rest;
    }
  }

  lemma ForwardIs(c: Config, s: Smp)
    ensures Forward(c, s) == Bsp || Forward(c, s).Run?
  {
  }

  lemma SameRound(c: Config, s: Smp, s': Smp)
    requires s'.round == s.round
    ensures RoundsLeft(c, s') == RoundsLeft(c, s)
  {
  }

  /** However a run has gone so far, timeouts included, some continuation without a timeout finishes the loop. */
  lemma CanFinish(c: Config, stackBase: nat, shared: Record, p32: nat, p64: nat, words: map<nat, nat>, es: seq<Event>)
    returns (more: seq<Event>)
    ensures Timeout !in more && End(c, End(c, Boot(stackBase, shared, p32, p64, words), es), more).pc == Finished
  {
    var s0 := Boot(stackBase, shared, p32, p64, words);
    LiveRun(c, s0, es);
    more := Finishes(c, End(c, s0, es));
  }
}

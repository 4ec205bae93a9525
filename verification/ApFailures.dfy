/** When the start-up protocol can fail: over all runs from boot, exactly which lists of processors allow a processor to
    load a stack that is not its own. */
module ApFailures {

  import opened ApStartup
  import opened ApProgress

  /** The list has two processors to start. */
  ghost predicate TwoToStart(c: Config) {
    exists j, k :: 0 <= j < k < |c.cpus| && c.cpus[j] != c.bsp && c.cpus[k] != c.bsp
  }

  /** The processor has just loaded a stack that is not the one of its round. */
  predicate WrongStack(s: Smp, cpu: nat) {
    cpu in s.aps && s.aps[cpu].pc == HaveStack && s.aps[cpu].round in s.stacks && s.aps[cpu].rsp != s.stacks[s.aps[cpu].round]
  }

  lemma {:induction false} EndAppend(c: Config, s: Smp, a: seq<Event>, b: seq<Event>)
    ensures End(c, s, a + b) == End(c, End(c, s, a), b)
    decreases |a|
  {
    hide Step;
    if a == [] {
      assert a + b == b;
    } else {
      EndAppend(c, Step(c, s, a[0]), a[1..], b);
      assert (a + b)[1..] == a[1..] + b;
    }
  }

  /* ------------------------------ Getting there ------------------------------ */

  /** The boot processor waits in round k for a processor that is about to load its stack. */
  predicate AtLoad(c: Config, s: Smp, k: nat)
    requires k < |c.cpus|
  {
    s.pc == AwaitReady && s.round == k && ApOf(s, c.cpus[k]).pc == HavePtr64
  }

  /** Round k has not got past that point. */
  predicate NotPast(c: Config, s: Smp, k: nat)
    requires k < |c.cpus|
  {
    && s.pc != Finished && s.round <= k
    && (s.round == k && Started(s.pc) ==> ApOf(s, c.cpus[k]).pc in {Start, HavePtr32, HaveCr3, HavePtr64})
  }

  lemma NotPastBsp(c: Config, s: Smp, k: nat)
    requires k < |c.cpus| && c.cpus[k] != c.bsp && Inv(c, s) && NotPast(c, s, k) && Forward(c, s) == Bsp
    ensures HasStack(c, s) && NotPast(c, BspStep(c, s), k)
  {
    hide ApsOk, StacksOk, LogOk, FieldsWritten, RecordFor, WriteField, ReadWord;
  }

  lemma NotPastAp(c: Config, s: Smp, k: nat)
    requires k < |c.cpus| && Inv(c, s) && NotPast(c, s, k) && !AtLoad(c, s, k) && Forward(c, s).Run?
    ensures NotPast(c, Step(c, s, Forward(c, s)), k)
  {
    hide ApsOk, StacksOk, LogOk, SharedOk, ReadWord, ReadRecord;
  }

  /** Some run without a timeout reaches that point in every round with a processor to start. */
  lemma {:induction false} ReachLoad(c: Config, s: Smp, k: nat) returns (es: seq<Event>)
    requires k < |c.cpus| && c.cpus[k] != c.bsp && Inv(c, s) && Live(c, s) && NotPast(c, s, k)
    ensures Inv(c, End(c, s, es)) && AtLoad(c, End(c, s, es), k)
    decreases RoundsLeft(c, s), BspLeft(s.pc), CurrentLeft(c, s)
  {
    hide Inv, Live, Step, BspStep, RoundsLeft, BspLeft, CurrentLeft, Forward, NotPast, AtLoad;
    if AtLoad(c, s, k) {
      es := [];
    } else {
      var e := Forward(c, s);
      ForwardIs(c, s);
      NotFinished(c, s, k);
      if e == Bsp {
        ForwardBsp(c, s);
        NotPastBsp(c, s, k);
        BspIs(c, s);
      } else {
        ForwardAp(c, s);
        NotPastAp(c, s, k);
        SameRound(c, s, Step(c, s, e));
      }
      LiveStep(c, s, e);
      StepKeepsIffTimely(c, s, e);
      var rest := ReachLoad(c, Step(c, s, e), k);
      es := [e] + rest;
      assert es[1..] == rest;
    }
  }

  lemma NotFinished(c: Config, s: Smp, k: nat)
    requires k < |c.cpus| && NotPast(c, s, k)
    ensures s.pc != Finished
  {
  }

  lemma BspIs(c: Config, s: Smp)
    requires HasStack(c, s)
    ensures Step(c, s, Bsp) == BspStep(c, s)
  {
  }

  /* ------------------------------ Going wrong ------------------------------ */

  /** The state at the start of round j. */
  function RoundStart(s: Smp, j: nat): Smp {
    s.(pc := Fill(0), round := j, cursor := s.cursor + STACK_BYTES, stacks := s.stacks[j := s.cursor + STACK_BYTES - 8])
  }

  /** The boot processor skips its own entries up to the next processor to start. */
  lemma {:induction false} SkipToNext(c: Config, s: Smp, k: nat) returns (es: seq<Event>, j: nat)
    requires s.pc == Select && s.round <= k < |c.cpus| && c.cpus[k] != c.bsp
    ensures s.round <= j <= k && End(c, s, es) == RoundStart(s, j)
    decreases k - s.round
  {
    var s' := Step(c, s, Bsp);
    if c.cpus[s.round] == c.bsp {
      var rest;
      rest, j := SkipToNext(c, s', k);
      es := [Bsp] + rest;
      assert es[1..] == rest;
      assert RoundStart(s', j) == RoundStart(s, j);
    } else {
      es, j := [Bsp], s.round;
      assert End(c, s', es[1..]) == s';
    }
  }

  /** Three stores into the record: the stack is among them, and nothing else has changed. */
  lemma StoreStack(c: Config, s: Smp)
    requires s.pc == Fill(0) && s.round < |c.cpus| && s.round in s.stacks
    ensures var s' := End(c, s, [Bsp, Bsp, Bsp]);
            && s'.shared.stackTop == s.stacks[s.round]
            && s'.aps == s.aps && s'.stacks == s.stacks
  {
    var a := Step(c, s, Bsp);
    var b := Step(c, a, Bsp);
    var d := Step(c, b, Bsp);
    assert a.pc == Fill(1) && b.pc == Fill(2);
    var es := [Bsp, Bsp, Bsp];
    assert es[1..] == [Bsp, Bsp] && es[1..][1..] == [Bsp] && es[1..][1..][1..] == [];
    assert End(c, s, es) == End(c, a, [Bsp, Bsp]);
    assert End(c, a, [Bsp, Bsp]) == End(c, b, [Bsp]) by { assert [Bsp, Bsp][1..] == [Bsp]; }
    assert End(c, b, [Bsp]) == d by { assert [Bsp][1..] == []; }
  }

  /** When the wait gives up at that point and there is another processor to start, some continuation has the processor
      load a stack that is not its own. */
  lemma GoesWrong(c: Config, s: Smp, r: nat, k: nat) returns (es: seq<Event>)
    requires r < k < |c.cpus| && c.cpus[k] != c.bsp && Inv(c, s) && AtLoad(c, s, r)
    ensures WrongStack(End(c, s, es), c.cpus[r])
  {
    var cpu := c.cpus[r];
    var t := TimeoutStep(s);
    LoadFacts(c, s, r);
    hide Inv;
    var skip, j := SkipToNext(c, t, k);
    var u := RoundStart(t, j);
    StoreStack(c, u);
    var v := End(c, u, [Bsp, Bsp, Bsp]);
    var w := Step(c, v, Run(cpu));
    assert ApOf(w, cpu).rsp == v.stacks[j] != v.stacks[r];
    es := [Timeout] + skip + [Bsp, Bsp, Bsp] + [Run(cpu)];
    hide Step;
    EndOne(c, s, Timeout);
    TimeoutIs(c, s);
    EndOne(c, v, Run(cpu));
    EndAppend(c, s, [Timeout], skip);
    EndAppend(c, s, [Timeout] + skip, [Bsp, Bsp, Bsp]);
    EndAppend(c, s, [Timeout] + skip + [Bsp, Bsp, Bsp], [Run(cpu)]);
  }

  lemma EndOne(c: Config, s: Smp, e: Event)
    ensures End(c, s, [e]) == Step(c, s, e)
  {
    hide Step;
    assert [e][1..] == [];
  }

  lemma LoadFacts(c: Config, s: Smp, r: nat)
    requires r < |c.cpus| && Inv(c, s) && AtLoad(c, s, r)
    ensures var cpu := c.cpus[r];
            && cpu in s.aps && s.aps[cpu].pc == HavePtr64 && s.aps[cpu].ptr64 == c.abPa && s.aps[cpu].round == r
            && r in s.stacks && s.stacks[r] + 8 <= s.cursor
  {
    assert Active(s.aps[c.cpus[r]]);
  }

  /* ------------------------------ Exactly when ------------------------------ */

  lemma NotHarmful(c: Config, s: Smp, e: Event)
    requires Live(c, s) && !TwoToStart(c)
    ensures !Harmful(c, s, e)
  {
  }

  /** Without two processors to start, no timeout does harm. */
  lemma {:induction false} NeverHarmful(c: Config, s: Smp, es: seq<Event>)
    requires Live(c, s) && !TwoToStart(c)
    ensures Harmless(c, s, es)
    decreases |es|
  {
    if es != [] {
      NotHarmful(c, s, es[0]);
      LiveStep(c, s, es[0]);
      hide Live, Step, Harmful, TwoToStart;
      NeverHarmful(c, Step(c, s, es[0]), es[1..]);
    }
  }

  lemma SafeStacks(c: Config, s: Smp, cpu: nat)
    requires Safe(c, s)
    ensures !WrongStack(s, cpu)
  {
    hide SharedOk, StacksOk, LogOk;
    if !Inv(c, s) {
      var r :| Retired(c, s, r);
      assert ApsOk(c, Rewound(s, r));
    }
  }

  /** Over all runs from boot, some processor can load a stack that is not its own if and only if the list has two
      processors to start. */
  lemma WrongStackIffTwo(c: Config, stackBase: nat, shared: Record, p32: nat, p64: nat, words: map<nat, nat>)
    ensures var s0 := Boot(stackBase, shared, p32, p64, words);
            (exists es, cpu :: WrongStack(End(c, s0, es), cpu)) <==> TwoToStart(c)
  {
    var s0 := Boot(stackBase, shared, p32, p64, words);
    BootInv(c, stackBase, shared, p32, p64, words);
    assert Live(c, s0);
    if TwoToStart(c) {
      var j, k :| 0 <= j < k < |c.cpus| && c.cpus[j] != c.bsp && c.cpus[k] != c.bsp;
      assert NotPast(c, s0, j);
      hide Inv, Live, NotPast, AtLoad, End, WrongStack;
      var es := ReachLoad(c, s0, j);
      var more := GoesWrong(c, End(c, s0, es), j, k);
      EndAppend(c, s0, es, more);
      assert WrongStack(End(c, s0, es + more), c.cpus[j]);
    } else {
      hide Inv, Live, End, WrongStack;
      forall es, cpu
        ensures !WrongStack(End(c, s0, es), cpu)
      {
        NeverHarmful(c, s0, es);
        SafeRun(c, s0, es);
        SafeStacks(c, End(c, s0, es), cpu);
      }
    }
  }

  /** So it can on a machine with a boot processor and two others. */
  lemma ThreeProcessors(stackBase: nat, shared: Record, p32: nat, p64: nat, words: map<nat, nat>)
    ensures var c := Config([0, 1, 2], 0, 0x1000, 0x2000, 0x3000, 0x4000, 0x5000);
            exists es, cpu :: WrongStack(End(c, Boot(stackBase, shared, p32, p64, words), es), cpu)
  {
    var c := Config([0, 1, 2], 0, 0x1000, 0x2000, 0x3000, 0x4000, 0x5000);
    assert c.cpus[1] != c.bsp && c.cpus[2] != c.bsp;
    WrongStackIffTwo(c, stackBase, shared, p32, p64, words);
  }
}

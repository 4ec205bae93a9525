/** How long a task waits for the processor, in switches and in timer ticks, over arbitrary runs, and what becomes of a
    killed one. */
module SchedFairness {

  import opened Wrappers
  import opened Context
  import opened RunQueue
  import opened SchedRuns

  /** Id of the current task. */
  function Cur(q: Queue): nat
    requires Inv(q) && q.current.Some?
  {
    q.tasks[q.current.value].id
  }

  /** Event e moves the processor to task w. */
  predicate SwitchTo(q: Queue, e: Event, w: nat)
    requires Inv(q)
  {
    e.Tick? && Switches(q) && q.tasks[Next(q)].id == w
  }

  predicate Switching(q: Queue, e: Event)
    requires Inv(q)
  {
    e.Tick? && Switches(q)
  }

  /** Task w exists and is not the current one. */
  ghost predicate Waiting(q: Queue, w: nat)
    requires Inv(q)
  {
    q.current.Some? && w < |q.tasks| && Cur(q) != w
  }

  /** A switch hands over to the next lower id, and from id 0 to the newest task; no other event changes which task
      is current. */
  lemma CurrentMoves(q: Queue, e: Event)
    requires Inv(q) && Enabled(q, e) && q.current.Some?
    ensures Cur(Step(q, e)) ==
            if !Switching(q, e) then Cur(q) else if Cur(q) == 0 then |q.tasks| - 1 else Cur(q) - 1
    ensures Switching(q, e) ==> SwitchTo(q, e, Cur(Step(q, e)))
  {
    match e {
      case Spawn(trap) =>
        assert Spawned(q, trap).tasks[q.current.value + 1] == q.tasks[q.current.value];
      case Tick(tf) =>
        TickInv(q, tf);
        if Switches(q) {
          NextIsOther(q);
        }
      case Kill =>
      case Sweep =>
        SweepIsIdle(q);
    }
  }

  /* ------------------------------ Waiting, in switches ------------------------------ */

  /** Switches until w runs if nothing is spawned meanwhile. */
  function Distance(q: Queue, w: nat): (d: nat)
    requires Inv(q) && q.current.Some? && w < |q.tasks|
    ensures d <= |q.tasks|
  {
    if w < Cur(q) then Cur(q) - w else |q.tasks| + Cur(q) - w
  }

  ghost function SwitchCount(q: Queue, es: seq<Event>): nat
    requires Inv(q) && Legal(q, es)
    decreases |es|
  {
    if es == [] then 0 else (if Switching(q, es[0]) then 1 else 0) + SwitchCount(Step(q, es[0]), es[1..])
  }

  /** No event of the run moves the processor to w. */
  ghost predicate Starved(q: Queue, es: seq<Event>, w: nat)
    requires Inv(q) && Legal(q, es)
    decreases |es|
  {
    es == [] || (!SwitchTo(q, es[0], w) && Starved(Step(q, es[0]), es[1..], w))
  }

  lemma DistanceStep(q: Queue, e: Event, w: nat)
    requires Inv(q) && Enabled(q, e) && Waiting(q, w) && !SwitchTo(q, e, w)
    ensures Waiting(Step(q, e), w)
    ensures Distance(Step(q, e), w) + (if Switching(q, e) then 1 else 0) <= Distance(q, w) + |SpawnsOf(e)|
  {
    hide Inv, Enabled, Step, Switching, SwitchTo, Cur;
    CurrentMoves(q, e);
    CurBelow(q);
  }

  lemma CurBelow(q: Queue)
    requires Inv(q) && q.current.Some?
    ensures Cur(q) < |q.tasks|
  {
  }

  lemma {:induction false} StarvedSwitches(q: Queue, es: seq<Event>, w: nat)
    requires Inv(q) && Legal(q, es) && Waiting(q, w) && Starved(q, es, w)
    ensures Waiting(After(q, es), w)
    ensures SwitchCount(q, es) + Distance(After(q, es), w) <= Distance(q, w) + |Spawns(es)|
    decreases |es|
  {
    hide Inv, Enabled, Step, Switching, SwitchTo, Waiting, Distance;
    if es != [] {
      DistanceStep(q, es[0], w);
      StarvedSwitches(Step(q, es[0]), es[1..], w);
    }
  }

  /** Bounded waiting: while w waits, fewer switches happen than there are tasks, counting the ones spawned
      meanwhile. */
  lemma BoundedWait(q: Queue, es: seq<Event>, w: nat)
    requires Inv(q) && Legal(q, es) && Waiting(q, w) && Starved(q, es, w)
    ensures SwitchCount(q, es) < |q.tasks| + |Spawns(es)|
  {
    StarvedSwitches(q, es, w);
    CurBelow(After(q, es));
  }

  /* ------------------------------ Waiting, in ticks ------------------------------ */

  function TickCount(es: seq<Event>): nat
    decreases |es|
  {
    if es == [] then 0 else (if es[0].Tick? then 1 else 0) + TickCount(es[1..])
  }

  function KillCount(es: seq<Event>): nat
    decreases |es|
  {
    if es == [] then 0 else (if es[0].Kill? then 1 else 0) + KillCount(es[1..])
  }

  /** Ticks until the current task loses the processor, with at least one other task. */
  function TimeLeft(q: Queue): nat
    requires Inv(q) && q.current.Some?
  {
    if q.needResched then 1 else q.tasks[q.current.value].slice
  }

  lemma TimeLeftStep(q: Queue, e: Event)
    requires Inv(q) && Enabled(q, e) && q.current.Some? && |q.tasks| > 1
    ensures TimeLeft(Step(q, e)) <= 10
    ensures TimeLeft(Step(q, e)) + (if e.Tick? then 1 else 0) <=
            TimeLeft(q) + 10 * ((if Switching(q, e) then 1 else 0) + (if e.Kill? then 1 else 0))
  {
    match e {
      case Spawn(trap) =>
        assert Spawned(q, trap).tasks[q.current.value + 1] == q.tasks[q.current.value];
      case Tick(tf) =>
        TickInv(q, tf);
      case Kill =>
      case Sweep =>
        SweepIsIdle(q);
    }
  }

  lemma {:induction false} TicksPerSwitch(q: Queue, es: seq<Event>)
    requires Inv(q) && Legal(q, es) && q.current.Some? && |q.tasks| > 1
    ensures After(q, es).current.Some?
    ensures TickCount(es) + TimeLeft(After(q, es)) <= TimeLeft(q) + 10 * (SwitchCount(q, es) + KillCount(es))
    decreases |es|
  {
    hide Inv, Enabled, Switching, TimeLeft;
    if es != [] {
      TimeLeftStep(q, es[0]);
      StepKeeps(q, es[0]);
      TicksPerSwitch(Step(q, es[0]), es[1..]);
    }
  }

  lemma StepKeeps(q: Queue, e: Event)
    requires Inv(q) && Enabled(q, e) && q.current.Some?
    ensures Step(q, e).current.Some? && |Step(q, e).tasks| >= |q.tasks|
  {
  }

  /** Response time: a waiting task gets the processor within ten ticks for every task there is, every task spawned
      and every kill meanwhile. */
  lemma ResponseTime(q: Queue, es: seq<Event>, w: nat)
    requires Inv(q) && Legal(q, es) && Waiting(q, w)
    requires TickCount(es) > 10 * (|q.tasks| + |Spawns(es)| + KillCount(es))
    ensures !Starved(q, es, w)
  {
    hide Step;
    assert TimeLeft(q) <= 10;
    if Starved(q, es, w) {
      BoundedWait(q, es, w);
      TicksPerSwitch(q, es);
    }
  }

  /* ------------------------------ Time slices, exactly ------------------------------ */

  ghost predicate NoKill(es: seq<Event>) {
    forall k :: 0 <= k < |es| ==> !es[k].Kill?
  }

  ghost predicate OnlyTicks(es: seq<Event>) {
    forall k :: 0 <= k < |es| ==> es[k].Tick?
  }

  /** Switches due after the given ticks, when the first is due after `left` and each later one five ticks on. */
  function Due(left: nat, ticks: nat): nat { if ticks < left then 0 else 1 + (ticks - left) / 5 }

  lemma DueStep(left: nat, ticks: nat)
    requires 1 <= left
    ensures Due(left, ticks + 1) == if left == 1 then 1 + Due(5, ticks) else Due(left - 1, ticks)
  {
  }

  /** Only a tick takes time, one unit of it, and the last unit brings the switch. */
  lemma TimeLeftExact(q: Queue, e: Event)
    requires Inv(q) && Enabled(q, e) && !e.Kill? && q.current.Some? && |q.tasks| > 1
    ensures Step(q, e).current.Some? && |Step(q, e).tasks| > 1 && TimeLeft(q) >= 1
    ensures Switching(q, e) <==> e.Tick? && TimeLeft(q) == 1
    ensures TimeLeft(Step(q, e)) == if !e.Tick? then TimeLeft(q) else if TimeLeft(q) == 1 then 5 else TimeLeft(q) - 1
  {
    match e {
      case Spawn(trap) =>
        assert Spawned(q, trap).tasks[q.current.value + 1] == q.tasks[q.current.value];
      case Tick(tf) =>
        TickInv(q, tf);
        if Switches(q) {
          NextIsOther(q);
        }
      case Sweep =>
        SweepIsIdle(q);
      case Kill =>
    }
  }

  /** Over any run of ticks, spawns and sweeps the number of switches is the number due. */
  lemma {:induction false} SwitchesExact(q: Queue, es: seq<Event>)
    requires Inv(q) && Legal(q, es) && NoKill(es) && q.current.Some? && |q.tasks| > 1
    ensures SwitchCount(q, es) == Due(TimeLeft(q), TickCount(es))
    decreases |es|
  {
    hide Inv, Enabled, Step, Switching, TimeLeft, Due;
    if es != [] {
      TimeLeftExact(q, es[0]);
      SwitchesExact(Step(q, es[0]), es[1..]);
      DueStep(TimeLeft(q), TickCount(es[1..]));
    } else {
      NoneDue(q);
    }
  }

  lemma NoneDue(q: Queue)
    requires Inv(q) && q.current.Some?
    ensures Due(TimeLeft(q), 0) == 0
  {
  }

  /** The task m places further down the ring of n ids. */
  function Older(n: nat, id: nat, m: nat): nat
    requires id < n
    decreases m
  {
    if m == 0 then id else Older(n, if id == 0 then n - 1 else id - 1, m - 1)
  }

  /** The current task after a run of ticks is as many places further down the ring as there were switches. */
  lemma {:induction false} CurrentAfter(q: Queue, es: seq<Event>)
    requires Inv(q) && Legal(q, es) && OnlyTicks(es) && q.current.Some?
    ensures After(q, es).current.Some? && |After(q, es).tasks| == |q.tasks| && Cur(q) < |q.tasks|
    ensures Cur(After(q, es)) == Older(|q.tasks|, Cur(q), SwitchCount(q, es))
    decreases |es|
  {
    hide Inv, Enabled, Step, Switching, Cur;
    CurBelow(q);
    if es != [] {
      CurrentMoves(q, es[0]);
      TickKeepsTasks(q, es[0]);
      CurrentAfter(Step(q, es[0]), es[1..]);
    }
  }

  lemma TickKeepsTasks(q: Queue, e: Event)
    requires Inv(q) && Enabled(q, e) && e.Tick? && q.current.Some?
    ensures Step(q, e).current.Some? && |Step(q, e).tasks| == |q.tasks|
  {
  }

  /** A task that has just got the processor. */
  ghost predicate JustSwitched(q: Queue, e: Event)
    requires Inv(q) && Enabled(q, e)
  {
    e.Tick? && Step(q, e).current.Some? && (q.current == None || Cur(Step(q, e)) != Cur(q))
  }

  lemma FreshSlice(q: Queue, e: Event)
    requires Inv(q) && Enabled(q, e) && JustSwitched(q, e)
    ensures TimeLeft(Step(q, e)) == 5
  {
    TickInv(q, e.tf);
    if q.current.Some? {
      CurrentMoves(q, e);
    }
    if Switches(q) {
      if q.current.Some? {
        NextIsOther(q);
      }
    }
  }

  /** A task that has just got the processor keeps it for four more ticks and loses it at the fifth, and so does every
      task after it: with at least two tasks, a run of ticks moves the processor on once in five ticks. */
  lemma FiveTicksEach(q: Queue, e: Event, es: seq<Event>)
    requires Inv(q) && Enabled(q, e) && JustSwitched(q, e) && |q.tasks| > 1
    requires Legal(Step(q, e), es) && OnlyTicks(es)
    ensures After(Step(q, e), es).current.Some? && Cur(Step(q, e)) < |q.tasks|
    ensures Cur(After(Step(q, e), es)) == Older(|q.tasks|, Cur(Step(q, e)), |es| / 5)
    ensures SwitchCount(Step(q, e), es) == |es| / 5
  {
    FreshSlice(q, e);
    hide Inv, Enabled, Cur, JustSwitched, TimeLeft;
    AllTicks(es);
    CurrentAfter(Step(q, e), es);
    SwitchesExact(Step(q, e), es);
    FifthDue(|es|);
  }

  lemma FifthDue(n: nat)
    ensures Due(5, n) == n / 5
  {
  }

  /** A killed task keeps the processor for ten ticks, unless a switch is overdue. */
  lemma TenTicksOnceKilled(q: Queue, es: seq<Event>)
    requires Inv(q) && q.current.Some? && |q.tasks| > 1 && !q.needResched
    requires Legal(Step(q, Kill), es) && OnlyTicks(es)
    ensures After(Step(q, Kill), es).current.Some? && Cur(q) < |q.tasks|
    ensures Cur(After(Step(q, Kill), es)) == Older(|q.tasks|, Cur(q), if |es| < 10 then 0 else 1 + (|es| - 10) / 5)
  {
    var k := Step(q, Kill);
    assert TimeLeft(k) == 10 && Cur(k) == Cur(q) && |k.tasks| == |q.tasks|;
    hide Inv, Enabled, Step, Cur, TimeLeft;
    AllTicks(es);
    CurrentAfter(k, es);
    SwitchesExact(k, es);
  }

  /** While it is alone, a task keeps the processor, but its slice runs all the same. */
  lemma {:induction false} AloneOverdue(q: Queue, es: seq<Event>)
    requires Inv(q) && Legal(q, es) && OnlyTicks(es) && q.current.Some? && |q.tasks| == 1
    ensures After(q, es).current.Some? && |After(q, es).tasks| == 1
    ensures After(q, es).needResched <==> q.needResched || |es| >= q.tasks[q.current.value].slice
    decreases |es|
  {
    hide Enabled, Step;
    if es != [] {
      AloneTick(q, es[0]);
      AloneOverdue(Step(q, es[0]), es[1..]);
    }
  }

  lemma AloneTick(q: Queue, e: Event)
    requires Inv(q) && Enabled(q, e) && e.Tick? && q.current.Some? && |q.tasks| == 1
    ensures var q' := Step(q, e);
            && q'.current == q.current && |q'.tasks| == 1
            && (q.tasks[q.current.value].slice == 1 ==> q'.needResched)
            && (q.tasks[q.current.value].slice > 1 ==>
                  q'.needResched == q.needResched && q'.tasks[q.current.value].slice == q.tasks[q.current.value].slice - 1)
            && (q.needResched ==> q'.needResched)
  {
  }

  /** So a task that has been alone for ten ticks or more loses the processor at the first tick after a spawn. */
  lemma SpawnAfterLongAlone(q: Queue, es: seq<Event>, trap: TrapFrame, tf: TrapFrame)
    requires Inv(q) && Legal(q, es) && OnlyTicks(es) && q.current.Some? && |q.tasks| == 1 && |es| >= 10
    ensures var q' := Step(Step(After(q, es), Spawn(trap)), Tick(tf)); q'.current.Some? && Cur(q') == 1
  {
    AloneOverdue(q, es);
    var a := After(q, es);
    hide After, Legal;
    var b := Step(a, Spawn(trap));
    assert TimeLeft(b) == 1 && |b.tasks| == 2;
    TimeLeftExact(b, Tick(tf));
    CurrentMoves(a, Spawn(trap));
    CurrentMoves(b, Tick(tf));
    CurBelow(a);
  }

  /** A tick that leaves the processor with the same task returns the frame it was given. */
  lemma SameTaskSameFrame(q: Queue, tf: TrapFrame)
    requires Inv(q)
    ensures q.current.Some? && Cur(Step(q, Tick(tf))) == Cur(q) ==> Resumed(q, tf) == tf
    ensures q.tasks == [] ==> Resumed(q, tf) == tf
  {
    TickInv(q, tf);
    if q.current.Some? && Switches(q) {
      CurrentMoves(q, Tick(tf));
    }
  }

  lemma {:induction false} AllTicks(es: seq<Event>)
    requires OnlyTicks(es)
    ensures TickCount(es) == |es| && KillCount(es) == 0 && NoKill(es)
    decreases |es|
  {
    if es != [] {
      AllTicks(es[1..]);
    }
  }

  /* ------------------------------ Round robin ------------------------------ */

  /** The ids that the run switches to, in order. */
  ghost function Visited(q: Queue, es: seq<Event>): (ids: seq<nat>)
    requires Inv(q) && Legal(q, es) && q.current.Some?
    ensures |ids| == SwitchCount(q, es)
    decreases |es|
  {
    if es == [] then []
    else
      var q' := Step(q, es[0]);
      (if Switching(q, es[0]) then [Cur(q')] else []) + Visited(q', es[1..])
  }

  lemma DistanceExact(q: Queue, e: Event, w: nat)
    requires Inv(q) && Enabled(q, e) && q.current.Some? && !e.Spawn? && w < |q.tasks|
    ensures !Switching(q, e) ==> Distance(Step(q, e), w) == Distance(q, w)
    ensures Switching(q, e) && w == Cur(Step(q, e)) ==> Distance(q, w) == 1
    ensures Switching(q, e) && w != Cur(Step(q, e)) ==> Distance(q, w) == Distance(Step(q, e), w) + 1
  {
    hide Inv, Enabled, Step, Switching, SwitchTo, Cur;
    CurrentMoves(q, e);
    CurBelow(q);
  }

  lemma UnfoldVisited(q: Queue, es: seq<Event>)
    requires Inv(q) && Legal(q, es) && q.current.Some? && Spawns(es) == [] && |Visited(q, es)| > 0
    ensures es != [] && Enabled(q, es[0]) && !es[0].Spawn? && Spawns(es[1..]) == []
    ensures Legal(Step(q, es[0]), es[1..])
    ensures Visited(q, es) == if Switching(q, es[0]) then [Cur(Step(q, es[0]))] + Visited(Step(q, es[0]), es[1..])
                              else Visited(Step(q, es[0]), es[1..])
  {
    hide Inv, Enabled, Step, Switching, Cur, SwitchCount;
  }

  lemma {:induction false} VisitedAt(q: Queue, es: seq<Event>, j: nat)
    requires Inv(q) && Legal(q, es) && q.current.Some? && Spawns(es) == []
    requires j < |Visited(q, es)| && j < |q.tasks|
    ensures Visited(q, es)[j] < |q.tasks| && Distance(q, Visited(q, es)[j]) == j + 1
    decreases |es|
  {
    hide Inv, Enabled, Step, Switching, Distance, Cur, SwitchCount, Visited, Legal, Spawns;
    UnfoldVisited(q, es);
    var e, q', rest := es[0], Step(q, es[0]), es[1..];
    CurBelow(q');
    if !Switching(q, e) {
      VisitedAt(q', rest, j);
      DistanceExact(q, e, Visited(q', rest)[j]);
    } else {
      if j == 0 {
        DistanceExact(q, e, Cur(q'));
      } else {
        VisitedAt(q', rest, j - 1);
        DistanceExact(q, e, Visited(q', rest)[j - 1]);
        DistanceToSelf(q');
      }
    }
  }

  lemma DistanceToSelf(q: Queue)
    requires Inv(q) && q.current.Some?
    ensures Cur(q) < |q.tasks| && Distance(q, Cur(q)) == |q.tasks|
  {
  }

  /** Round robin: without spawns, as many switches as there are tasks visit every task exactly once. */
  lemma RoundRobin(q: Queue, es: seq<Event>, w: nat)
    requires Inv(q) && Legal(q, es) && q.current.Some? && Spawns(es) == []
    requires SwitchCount(q, es) == |q.tasks| && w < |q.tasks|
    ensures var ids := Visited(q, es);
            && 1 <= Distance(q, w) <= |ids| && ids[Distance(q, w) - 1] == w
            && forall j :: 0 <= j < |ids| && ids[j] == w ==> j == Distance(q, w) - 1
  {
    hide Inv, Enabled, Step, Legal, Switching, Cur, SwitchCount, Spawns;
    var ids := Visited(q, es);
    CurBelow(q);
    forall j | 0 <= j < |ids|
      ensures ids[j] < |q.tasks| && Distance(q, ids[j]) == j + 1
    {
      VisitedAt(q, es, j);
    }
    VisitedAt(q, es, Distance(q, w) - 1);
  }

  /* ------------------------------ Infinite runs ------------------------------ */

  /** State of an infinite run before its i-th event. */
  ghost function At(q: Queue, run: nat -> Event, i: nat): (q': Queue)
    requires Inv(q)
    ensures Inv(q')
  {
    if i == 0 then q
    else
      var p := At(q, run, i - 1);
      if Enabled(p, run(i - 1)) then Step(p, run(i - 1)) else p
  }

  ghost predicate SwitchesAt(q: Queue, run: nat -> Event, i: nat)
    requires Inv(q)
  {
    Switching(At(q, run, i), run(i))
  }

  ghost predicate LegalRun(q: Queue, run: nat -> Event)
    requires Inv(q)
  {
    forall k: nat :: Enabled(At(q, run, k), run(k))
  }

  ghost predicate SwitchesFrom(q: Queue, run: nat -> Event, i: nat)
    requires Inv(q)
  {
    exists j: nat :: i <= j && SwitchesAt(q, run, j)
  }

  /** There is always another switch to come. */
  ghost predicate KeepsSwitching(q: Queue, run: nat -> Event)
    requires Inv(q)
  {
    forall i: nat :: SwitchesFrom(q, run, i)
  }

  lemma AtNext(q: Queue, run: nat -> Event, i: nat)
    requires Inv(q) && LegalRun(q, run)
    ensures Enabled(At(q, run, i), run(i)) && At(q, run, i + 1) == Step(At(q, run, i), run(i))
  {
    hide Inv, Enabled, Step;
  }

  /** Whether the current task still has to wrap past id 0 before w's turn comes, and how many switches that or the
      rest takes. Spawning changes neither. */
  function Rank(q: Queue, w: nat): (nat, nat)
    requires Inv(q) && q.current.Some?
  {
    if w < Cur(q) then (0, Cur(q) - w) else (1, Cur(q) + 1)
  }

  predicate Less(a: (nat, nat), b: (nat, nat)) { a.0 < b.0 || (a.0 == b.0 && a.1 < b.1) }

  lemma RankStep(q: Queue, e: Event, w: nat)
    requires Inv(q) && Enabled(q, e) && Waiting(q, w) && !SwitchTo(q, e, w)
    ensures Waiting(Step(q, e), w)
    ensures if Switching(q, e) then Less(Rank(Step(q, e), w), Rank(q, w)) else Rank(Step(q, e), w) == Rank(q, w)
  {
    hide Inv, Enabled, Step, Switching, SwitchTo, Cur;
    CurrentMoves(q, e);
    CurBelow(q);
  }

  /** The first switch at or after event i, before which nothing changes for w. */
  lemma {:induction false} NextSwitch(q: Queue, run: nat -> Event, i: nat, far: nat, w: nat) returns (j: nat)
    requires Inv(q) && LegalRun(q, run)
    requires i <= far && SwitchesAt(q, run, far) && Waiting(At(q, run, i), w)
    ensures i <= j && SwitchesAt(q, run, j)
    ensures Waiting(At(q, run, j), w) && Rank(At(q, run, j), w) == Rank(At(q, run, i), w)
    decreases far - i
  {
    hide Inv, Enabled, Step, Switching, Waiting, Rank, At, LegalRun;
    if SwitchesAt(q, run, i) {
      j := i;
      WaitingHasCurrent(At(q, run, i), w);
    } else {
      AtNext(q, run, i);
      SwitchToSwitches(At(q, run, i), run(i), w);
      RankStep(At(q, run, i), run(i), w);
      j := NextSwitch(q, run, i + 1, far, w);
    }
  }

  lemma WaitingHasCurrent(q: Queue, w: nat)
    requires Inv(q) && Waiting(q, w)
    ensures q.current.Some?
  {
  }

  lemma SwitchToSwitches(q: Queue, e: Event, w: nat)
    requires Inv(q)
    ensures SwitchTo(q, e, w) ==> Switching(q, e)
  {
  }

  /** No starvation: in an infinite run that keeps switching, whatever is spawned and killed meanwhile, every waiting
      task gets the processor. */
  lemma {:induction false} NoStarvation(q: Queue, run: nat -> Event, i: nat, w: nat) returns (j: nat)
    requires Inv(q) && LegalRun(q, run) && KeepsSwitching(q, run)
    requires Waiting(At(q, run, i), w)
    ensures i <= j && SwitchTo(At(q, run, j), run(j), w)
    decreases Rank(At(q, run, i), w).0, Rank(At(q, run, i), w).1
  {
    hide Inv, Enabled, Step, Switching, Waiting, SwitchTo, Rank, At, LegalRun;
    WaitingHasCurrent(At(q, run, i), w);
    assert SwitchesFrom(q, run, i);
    var far: nat :| i <= far && SwitchesAt(q, run, far);
    j := NextSwitch(q, run, i, far, w);
    if !SwitchTo(At(q, run, j), run(j), w) {
      AtNext(q, run, j);
      RankStep(At(q, run, j), run(j), w);
      j := NoStarvation(q, run, j + 1, w);
    }
  }

  /* ------------------------------ A timer that keeps ticking ------------------------------ */

  /** Events i, i + 1, ..., i + n - 1 of a run. */
  ghost function Window(run: nat -> Event, i: nat, n: nat): seq<Event>
    decreases n
  {
    if n == 0 then [] else [run(i)] + Window(run, i + 1, n - 1)
  }

  ghost predicate TicksFrom(run: nat -> Event, i: nat) {
    exists n: nat :: TickCount(Window(run, i, n)) > 10 * (1 + KillCount(Window(run, i, n)))
  }

  /** From every point on, the timer ticks often enough to outrun the slices that kills hand out. */
  ghost predicate Ticking(run: nat -> Event) {
    forall i: nat :: TicksFrom(run, i)
  }

  lemma {:induction false} WindowLegal(q: Queue, run: nat -> Event, i: nat, n: nat)
    requires Inv(q) && LegalRun(q, run)
    ensures Legal(At(q, run, i), Window(run, i, n))
    decreases n
  {
    hide Inv, Enabled, Step, At, LegalRun;
    if n != 0 {
      AtNext(q, run, i);
      WindowLegal(q, run, i + 1, n - 1);
      assert Window(run, i, n)[1..] == Window(run, i + 1, n - 1);
    }
  }

  lemma {:induction false} SwitchInWindow(q: Queue, run: nat -> Event, i: nat, n: nat) returns (j: nat)
    requires Inv(q) && LegalRun(q, run) && Legal(At(q, run, i), Window(run, i, n))
    requires SwitchCount(At(q, run, i), Window(run, i, n)) > 0
    ensures i <= j && SwitchesAt(q, run, j)
    decreases n
  {
    hide Inv, Enabled, Step, At, LegalRun, Switching, Legal;
    WindowLegal(q, run, i, n);
    if SwitchesAt(q, run, i) {
      j := i;
    } else {
      AtNext(q, run, i);
      WindowLegal(q, run, i + 1, n - 1);
      assert Window(run, i, n)[1..] == Window(run, i + 1, n - 1);
      j := SwitchInWindow(q, run, i + 1, n - 1);
    }
  }

  lemma {:induction false} AtKeeps(q: Queue, run: nat -> Event, i: nat, j: nat)
    requires Inv(q) && LegalRun(q, run) && i <= j && At(q, run, i).current.Some?
    ensures At(q, run, j).current.Some? && |At(q, run, j).tasks| >= |At(q, run, i).tasks|
    decreases j
  {
    hide Inv, Enabled, Step, LegalRun, At;
    if i != j {
      AtKeeps(q, run, i, j - 1);
      AtNext(q, run, j - 1);
      StepKeeps(At(q, run, j - 1), run(j - 1));
    }
  }

  lemma TimeLeftBounds(q: Queue)
    requires Inv(q) && q.current.Some?
    ensures 1 <= TimeLeft(q) <= 10
  {
  }

  lemma SwitchAhead(q: Queue, run: nat -> Event, i: nat)
    requires Inv(q) && LegalRun(q, run) && TicksFrom(run, i)
    requires At(q, run, i).current.Some? && |At(q, run, i).tasks| > 1
    ensures SwitchesFrom(q, run, i)
  {
    hide Inv, Enabled, Step, At, LegalRun, TimeLeft, SwitchesAt, Window;
    var n: nat :| TickCount(Window(run, i, n)) > 10 * (1 + KillCount(Window(run, i, n)));
    WindowLegal(q, run, i, n);
    TimeLeftBounds(At(q, run, i));
    TicksPerSwitch(At(q, run, i), Window(run, i, n));
    var j := SwitchInWindow(q, run, i, n);
  }

  /** Once there are two tasks, a timer that keeps ticking keeps switching. */
  lemma TickingKeepsSwitching(q: Queue, run: nat -> Event, from: nat)
    requires Inv(q) && LegalRun(q, run) && Ticking(run)
    requires At(q, run, from).current.Some? && |At(q, run, from).tasks| > 1
    ensures KeepsSwitching(q, run)
  {
    hide Inv, Enabled, Step, At, LegalRun, SwitchesAt, TicksFrom;
    forall i: nat
      ensures SwitchesFrom(q, run, i)
    {
      var k := if i < from then from else i;
      AtKeeps(q, run, from, k);
      assert TicksFrom(run, k);
      SwitchAhead(q, run, k);
    }
  }

  /** Fairness: under a timer that keeps ticking, every task that waits gets the processor, in every infinite run. */
  lemma FairUnderTicks(q: Queue, run: nat -> Event, i: nat, w: nat) returns (j: nat)
    requires Inv(q) && LegalRun(q, run) && Ticking(run)
    requires Waiting(At(q, run, i), w)
    ensures i <= j && SwitchTo(At(q, run, j), run(j), w)
  {
    hide Inv, Step, Enabled, Ticking, LegalRun, SwitchTo, At, KeepsSwitching, Waiting;
    TwoTasks(At(q, run, i), w);
    TickingKeepsSwitching(q, run, i);
    j := NoStarvation(q, run, i, w);
  }

  lemma TwoTasks(q: Queue, w: nat)
    requires Inv(q) && Waiting(q, w)
    ensures q.current.Some? && |q.tasks| > 1
  {
  }

  /** A timer that is never interrupted by anything else keeps ticking. */
  lemma TimerTicks(run: nat -> Event)
    requires forall k: nat :: run(k).Tick?
    ensures Ticking(run)
  {
    hide Window;
    forall i: nat
      ensures TicksFrom(run, i)
    {
      WindowTicks(run, i, 11);
    }
  }

  lemma {:induction false} WindowTicks(run: nat -> Event, i: nat, n: nat)
    requires forall k: nat :: run(k).Tick?
    ensures TickCount(Window(run, i, n)) == n && KillCount(Window(run, i, n)) == 0
    decreases n
  {
    if n != 0 {
      WindowTicks(run, i + 1, n - 1);
      assert Window(run, i, n)[1..] == Window(run, i + 1, n - 1);
    }
  }

  /* ------------------------------ Killed tasks ------------------------------ */

  /** State of task id. */
  function StateOf(q: Queue, id: nat): TaskState
    requires Inv(q) && id < |q.tasks|
  {
    q.tasks[|q.tasks| - 1 - id].state
  }

  /** One event: a task is dead afterwards exactly if it is killed, or was dead and no switch happens. */
  lemma DeadStep(q: Queue, e: Event, id: nat)
    requires Inv(q) && Enabled(q, e) && id < |q.tasks|
    ensures StateOf(Step(q, e), id) == Dead <==>
            if e.Kill? then q.current.Some? && Cur(q) == id else StateOf(q, id) == Dead && !Switching(q, e)
  {
    var i := |q.tasks| - 1 - id;
    DeadIsCurrent(q, id);
    match e {
      case Spawn(trap) =>
        SpawnedState(q, trap, i);
        hide Inv, Spawned, Cur;
      case Tick(tf) =>
        DeadTick(q, tf, i);
        hide Inv, Ticked, Switches, Cur;
      case Kill =>
        KilledState(q, i);
        hide Inv, Killed, Cur;
      case Sweep =>
        SweepIsIdle(q);
        hide Inv, Cur, ReapAll, Aged, Expired;
    }
  }

  lemma SpawnedState(q: Queue, trap: TrapFrame, i: nat)
    requires Inv(q) && i < |q.tasks|
    ensures |Spawned(q, trap).tasks| == |q.tasks| + 1 && Spawned(q, trap).tasks[i + 1].state == q.tasks[i].state
  {
  }

  lemma KilledState(q: Queue, i: nat)
    requires Inv(q) && i < |q.tasks|
    ensures |Killed(q).tasks| == |q.tasks| && (Killed(q).tasks[i].state == Dead <==> q.current == Some(i))
  {
  }

  lemma DeadTick(q: Queue, tf: TrapFrame, i: nat)
    requires Inv(q) && i < |q.tasks|
    ensures q.current.Some? ==> q.tasks[q.current.value].slice > 0
    ensures Inv(Ticked(q, tf)) && |Ticked(q, tf).tasks| == |q.tasks|
    ensures Ticked(q, tf).tasks[i].state == Dead <==> q.tasks[i].state == Dead && !Switches(q)
  {
    TickInv(q, tf);
  }

  lemma DeadIsCurrent(q: Queue, id: nat)
    requires Inv(q) && id < |q.tasks|
    ensures StateOf(q, id) == Dead ==> q.current == Some(|q.tasks| - 1 - id)
    ensures q.current.Some? ==> (Cur(q) == id <==> q.current == Some(|q.tasks| - 1 - id))
  {
  }

  /** Death is not terminal: over any run of spawns, ticks and sweeps, a task is dead at the end if and only if it was
      dead at the start and no switch has happened. */
  lemma {:induction false} DeadIffNoSwitch(q: Queue, es: seq<Event>, id: nat)
    requires Inv(q) && Legal(q, es) && NoKill(es) && id < |q.tasks|
    ensures id < |After(q, es).tasks|
    ensures StateOf(After(q, es), id) == Dead <==> StateOf(q, id) == Dead && SwitchCount(q, es) == 0
    decreases |es|
  {
    hide Inv, Enabled, Step, StateOf, Switching;
    if es != [] {
      DeadStep(q, es[0], id);
      TasksStay(q, es[0]);
      DeadIffNoSwitch(Step(q, es[0]), es[1..], id);
    }
  }

  lemma TasksStay(q: Queue, e: Event)
    requires Inv(q) && Enabled(q, e)
    ensures |Step(q, e).tasks| >= |q.tasks|
  {
  }

  lemma {:induction false} NoSwitchAlone(q: Queue, es: seq<Event>)
    requires Inv(q) && Legal(q, es) && OnlyTicks(es) && |q.tasks| == 1 && q.current.Some?
    ensures SwitchCount(q, es) == 0
    decreases |es|
  {
    hide Inv, Enabled, Step, Switching;
    if es != [] {
      AloneStep(q, es[0]);
      NoSwitchAlone(Step(q, es[0]), es[1..]);
    }
  }

  lemma AloneStep(q: Queue, e: Event)
    requires Inv(q) && Enabled(q, e) && e.Tick? && |q.tasks| == 1 && q.current.Some?
    ensures !Switching(q, e) && |Step(q, e).tasks| == 1 && Step(q, e).current.Some?
  {
  }

  /** In particular, when more than ten ticks and nothing else follow a kill, the task is still dead if and only if it
      is the only task. */
  lemma DeadStaysDeadIffAlone(q: Queue, es: seq<Event>)
    requires Inv(q) && q.current.Some? && Legal(Step(q, Kill), es) && OnlyTicks(es) && |es| > 10
    ensures var q' := After(Step(q, Kill), es);
            Cur(q) < |q'.tasks| && (StateOf(q', Cur(q)) == Dead <==> |q.tasks| == 1)
  {
    var k := Step(q, Kill);
    assert StateOf(k, Cur(q)) == Dead;
    DeadIffNoSwitch(k, es, Cur(q));
    hide Inv, Step, StateOf, After, Legal, SwitchCount;
    if |q.tasks| == 1 {
      NoSwitchAlone(k, es);
    } else {
      TicksPerSwitch(k, es);
      AllTicks(es);
    }
  }

  function KillThenSpawn(trap: TrapFrame, tf: TrapFrame): seq<Event> { [Spawn(trap)] + seq(11, _ => Tick(tf)) }

  /** Even the only task comes back: it is killed, another one is spawned, and after eleven ticks it is dead no more. */
  lemma KilledComesBack(q: Queue, trap: TrapFrame, tf: TrapFrame)
    requires Inv(q) && q.current.Some?
    ensures var (k, es) := (Step(q, Kill), KillThenSpawn(trap, tf));
            Legal(k, es) && NoKill(es) && Cur(q) < |After(k, es).tasks| && StateOf(After(k, es), Cur(q)) != Dead
  {
    hide Inv, Step, StateOf, SwitchCount, TimeLeft, Legal, After, Cur;
    var ticks: seq<Event> := seq(11, _ => Tick(tf));
    var es := KillThenSpawn(trap, tf);
    var k := Step(q, Kill);
    CurBelow(q);
    StepKeeps(q, Kill);
    DeadStep(q, Kill, Cur(q));
    var k1 := Step(k, Spawn(trap));
    SpawnGrows(k, trap);
    assert es[0] == Spawn(trap) && es[1..] == ticks && NoKill(es);
    TicksLegal(k1, ticks);
    AllTicks(ticks);
    TimeLeftBounds(k1);
    SwitchesExact(k1, ticks);
    OneMore(k, es);
    DeadIffNoSwitch(k, es, Cur(q));
  }

  lemma SpawnGrows(q: Queue, trap: TrapFrame)
    requires Inv(q) && q.current.Some?
    ensures Enabled(q, Spawn(trap)) && Step(q, Spawn(trap)).current.Some? && |Step(q, Spawn(trap)).tasks| > 1
  {
  }

  /** There is such a state: the first task, once it runs. */
  lemma FirstTaskRuns(trap: TrapFrame, tf: TrapFrame)
    ensures var q := Ticked(Spawned(EMPTY, trap), tf); Inv(q) && q.current.Some? && |q.tasks| == 1
  {
  }

  lemma OneMore(q: Queue, es: seq<Event>)
    requires Inv(q) && es != [] && Enabled(q, es[0]) && Legal(Step(q, es[0]), es[1..])
    ensures Legal(q, es) && SwitchCount(q, es) >= SwitchCount(Step(q, es[0]), es[1..])
  {
    hide Inv, Step, Enabled, Switching;
  }

  lemma {:induction false} TicksLegal(q: Queue, es: seq<Event>)
    requires Inv(q) && OnlyTicks(es)
    ensures Legal(q, es)
    decreases |es|
  {
    hide Inv, Step;
    if es != [] {
      TicksLegal(Step(q, es[0]), es[1..]);
    }
  }
}

/** Whole runs of the scheduler: what every reachable state satisfies, and which frame a task resumes with. */
module SchedRuns {

  import opened Wrappers
  import opened Context
  import opened RunQueue

  datatype Event = Spawn(trap: TrapFrame) | Tick(tf: TrapFrame) | Kill | Sweep

  /** A sweep is run by the reaper thread, which is then the current task and has not exited. */
  predicate Enabled(q: Queue, e: Event)
    requires Inv(q)
  {
    e.Sweep? ==> q.current.Some? && q.tasks[q.current.value].state == Running
  }

  /** One atomic operation under the lock. Every reachable state satisfies the queue invariant. */
  function Step(q: Queue, e: Event): (q': Queue)
    requires Inv(q) && Enabled(q, e)
    ensures Inv(q')
    ensures q.current.Some? ==> q'.current.Some?
    ensures |q'.tasks| == |q.tasks| + (if e.Spawn? then 1 else 0)
  {
    match e
    case Spawn(trap) => SpawnInv(q, trap); Spawned(q, trap)
    case Tick(tf) => TickInv(q, tf); Ticked(q, tf)
    case Kill => KillInv(q); Killed(q)
    case Sweep => SweepIsIdle(q); q.(tasks := ReapAll(Aged(q.tasks), Expired(q.tasks, |q.tasks|)).value)
  }

  ghost predicate Legal(q: Queue, es: seq<Event>)
    requires Inv(q)
    decreases |es|
  {
    es == [] || (Enabled(q, es[0]) && Legal(Step(q, es[0]), es[1..]))
  }

  ghost function After(q: Queue, es: seq<Event>): (q': Queue)
    requires Inv(q) && Legal(q, es)
    ensures Inv(q')
    decreases |es|
  {
    if es == [] then q else After(Step(q, es[0]), es[1..])
  }

  /* ------------------------------ Contexts ------------------------------ */

  /** A task that a tick switched out, with the frame the tick was given. */
  datatype Out = Out(id: nat, tf: TrapFrame)

  function OutsOf(q: Queue, e: Event): seq<Out>
    requires Inv(q)
  {
    if e.Tick? && Switches(q) && q.current.Some? then [Out(q.tasks[q.current.value].id, e.tf)] else []
  }

  function SpawnsOf(e: Event): seq<TrapFrame> { if e.Spawn? then [e.trap] else [] }

  /** Everything that was switched out during a run, in order. */
  ghost function Outs(q: Queue, es: seq<Event>): seq<Out>
    requires Inv(q) && Legal(q, es)
    decreases |es|
  {
    if es == [] then [] else OutsOf(q, es[0]) + Outs(Step(q, es[0]), es[1..])
  }

  /** The initial frames of the tasks spawned during a run, in order. */
  function Spawns(es: seq<Event>): seq<TrapFrame>
    decreases |es|
  {
    if es == [] then [] else SpawnsOf(es[0]) + Spawns(es[1..])
  }

  /** The frame task id has to resume with: the one it was last switched out with, or its initial one. */
  function Expected(outs: seq<Out>, spawns: seq<TrapFrame>, id: nat): TrapFrame
    requires id < |spawns|
    decreases |outs|
  {
    if outs == [] then spawns[id]
    else if outs[|outs| - 1].id == id then outs[|outs| - 1].tf
    else Expected(outs[..|outs| - 1], spawns, id)
  }

  /** Every task but the current one holds the frame it has to resume with. */
  ghost predicate Saved(q: Queue, outs: seq<Out>, spawns: seq<TrapFrame>) {
    && Inv(q) && |spawns| == |q.tasks|
    && (forall k :: 0 <= k < |outs| ==> outs[k].id < |spawns|)
    && forall i :: 0 <= i < |q.tasks| && q.current != Some(i) ==>
      q.tasks[i].trap == Expected(outs, spawns, q.tasks[i].id)
  }

  lemma {:induction false} ExpectedGrows(outs: seq<Out>, spawns: seq<TrapFrame>, more: seq<TrapFrame>, id: nat)
    requires id < |spawns|
    ensures Expected(outs, spawns + more, id) == Expected(outs, spawns, id)
    decreases |outs|
  {
    if outs != [] {
      ExpectedGrows(outs[..|outs| - 1], spawns, more, id);
    }
  }

  lemma {:induction false} ExpectedNew(outs: seq<Out>, spawns: seq<TrapFrame>, trap: TrapFrame)
    requires forall k :: 0 <= k < |outs| ==> outs[k].id < |spawns|
    ensures Expected(outs, spawns + [trap], |spawns|) == trap
    decreases |outs|
  {
    if outs != [] {
      ExpectedNew(outs[..|outs| - 1], spawns, trap);
    }
  }

  lemma SavedSpawn(q: Queue, trap: TrapFrame, outs: seq<Out>, spawns: seq<TrapFrame>)
    requires Inv(q) && Saved(q, outs, spawns)
    ensures Saved(Spawned(q, trap), outs, spawns + [trap])
  {
    var q' := Spawned(q, trap);
    SpawnInv(q, trap);
    ExpectedNew(outs, spawns, trap);
    SpawnedFirst(q, trap);
    hide Inv, Expected, Spawned;
    forall i | 0 <= i < |q'.tasks| && q'.current != Some(i)
      ensures q'.tasks[i].trap == Expected(outs, spawns + [trap], q'.tasks[i].id)
    {
      if i > 0 {
        SpawnedTask(q, trap, i - 1);
        ExpectedGrows(outs, spawns, [trap], q.tasks[i - 1].id);
      }
    }
  }

  lemma SpawnedTask(q: Queue, trap: TrapFrame, i: nat)
    requires Inv(q) && i < |q.tasks|
    ensures var q' := Spawned(q, trap);
            && |q'.tasks| == |q.tasks| + 1 && q'.tasks[i + 1] == q.tasks[i] && q.tasks[i].id < |q.tasks|
            && (q'.current != Some(i + 1) ==> q.current != Some(i))
  {
  }

  lemma SpawnedFirst(q: Queue, trap: TrapFrame)
    requires Inv(q)
    ensures var q' := Spawned(q, trap);
            |q'.tasks| == |q.tasks| + 1 && q'.tasks[0].id == |q.tasks| && q'.tasks[0].trap == trap
  {
  }

  /** A tick changes one frame at most: a switch stores the given one in the task it leaves. */
  lemma TickTrap(q: Queue, tf: TrapFrame, i: nat)
    requires Inv(q) && i < |q.tasks|
    ensures q.current.Some? ==> q.current.value < |q.tasks| && q.tasks[q.current.value].slice > 0
    ensures var q' := Ticked(q, tf);
            && |q'.tasks| == |q.tasks|
            && q'.tasks[i].id == q.tasks[i].id < |q.tasks|
            && q'.tasks[i].trap == (if Switches(q) && q.current == Some(i) then tf else q.tasks[i].trap)
            && (!Switches(q) ==> q'.current == q.current)
  {
    TickInv(q, tf);
  }

  lemma SameTask(q: Queue, i: nat, j: nat)
    requires Inv(q) && i < |q.tasks| && j < |q.tasks| && q.tasks[i].id == q.tasks[j].id
    ensures i == j
  {
  }

  lemma ExpectedOut(outs: seq<Out>, o: Out, spawns: seq<TrapFrame>, id: nat)
    requires id < |spawns|
    ensures Expected(outs + [o], spawns, id) == if o.id == id then o.tf else Expected(outs, spawns, id)
  {
    assert (outs + [o])[..|outs|] == outs;
  }

  lemma SavedAt(q: Queue, outs: seq<Out>, spawns: seq<TrapFrame>, i: nat)
    requires Inv(q) && Saved(q, outs, spawns) && i < |q.tasks| && q.current != Some(i)
    ensures q.tasks[i].id < |spawns| == |q.tasks| && q.tasks[i].trap == Expected(outs, spawns, q.tasks[i].id)
  {
  }

  lemma SavedTickAt(q: Queue, tf: TrapFrame, outs: seq<Out>, spawns: seq<TrapFrame>, i: nat)
    requires Inv(q) && Saved(q, outs, spawns) && |spawns| == |q.tasks| && i < |q.tasks|
    requires q.current.Some? ==> q.current.value < |q.tasks| && q.tasks[q.current.value].slice > 0
    requires i < |Ticked(q, tf).tasks| && Ticked(q, tf).current != Some(i)
    ensures var id := Ticked(q, tf).tasks[i].id;
            id < |spawns| && Ticked(q, tf).tasks[i].trap == Expected(outs + OutsOf(q, Tick(tf)), spawns, id)
  {
    TickTrap(q, tf, i);
    if q.current != Some(i) {
      SavedAt(q, outs, spawns, i);
    }
    if Switches(q) && q.current.Some? {
      var c := q.current.value;
      if q.tasks[c].id == q.tasks[i].id {
        SameTask(q, c, i);
      }
      ExpectedOut(outs, Out(q.tasks[c].id, tf), spawns, q.tasks[i].id);
      hide Inv, Saved, Ticked, Switches, Expected;
      assert OutsOf(q, Tick(tf)) == [Out(q.tasks[c].id, tf)];
    } else {
      hide Inv, Saved, Ticked, Switches, Expected;
      assert outs + OutsOf(q, Tick(tf)) == outs;
    }
  }

  lemma OutIds(q: Queue, tf: TrapFrame, outs: seq<Out>, spawns: seq<TrapFrame>)
    requires Inv(q) && Saved(q, outs, spawns)
    ensures forall k :: 0 <= k < |outs + OutsOf(q, Tick(tf))| ==> (outs + OutsOf(q, Tick(tf)))[k].id < |spawns|
  {
    hide Expected, Switches;
  }

  lemma SavedTick(q: Queue, tf: TrapFrame, outs: seq<Out>, spawns: seq<TrapFrame>)
    requires Inv(q) && Saved(q, outs, spawns)
    ensures q.current.Some? ==> q.tasks[q.current.value].slice > 0
    ensures Saved(Ticked(q, tf), outs + OutsOf(q, Tick(tf)), spawns)
  {
    TickInv(q, tf);
    OutIds(q, tf, outs, spawns);
    var q', outs' := Ticked(q, tf), outs + OutsOf(q, Tick(tf));
    forall i | 0 <= i < |q'.tasks| && q'.current != Some(i)
      ensures q'.tasks[i].id < |spawns| && q'.tasks[i].trap == Expected(outs', spawns, q'.tasks[i].id)
    {
      SavedTickAt(q, tf, outs, spawns, i);
    }
    hide Inv, Ticked, Switches, Expected, OutsOf;
  }

  lemma SavedStep(q: Queue, e: Event, outs: seq<Out>, spawns: seq<TrapFrame>)
    requires Inv(q) && Enabled(q, e) && Saved(q, outs, spawns)
    ensures Saved(Step(q, e), outs + OutsOf(q, e), spawns + SpawnsOf(e))
  {
    var outs', spawns' := outs + OutsOf(q, e), spawns + SpawnsOf(e);
    match e {
      case Spawn(trap) =>
        assert outs' == outs;
        SavedSpawn(q, trap, outs, spawns);
        hide Inv, Saved, Spawned;
      case Tick(tf) =>
        assert spawns' == spawns;
        SavedTick(q, tf, outs, spawns);
        hide Inv, Saved, Ticked;
      case Kill =>
        assert outs' == outs && spawns' == spawns;
        KillInv(q);
      case Sweep =>
        assert outs' == outs && spawns' == spawns;
        SweepIsIdle(q);
    }
  }

  lemma {:induction false} SavedRun(q: Queue, es: seq<Event>, outs: seq<Out>, spawns: seq<TrapFrame>)
    requires Inv(q) && Legal(q, es) && Saved(q, outs, spawns)
    ensures Saved(After(q, es), outs + Outs(q, es), spawns + Spawns(es))
    decreases |es|
  {
    hide Inv, Enabled, Step, Saved, Expected, OutsOf, SpawnsOf;
    if es == [] {
      assert outs + Outs(q, es) == outs && spawns + Spawns(es) == spawns;
    } else {
      var e, q1 := es[0], Step(q, es[0]);
      SavedStep(q, e, outs, spawns);
      SavedRun(q1, es[1..], outs + OutsOf(q, e), spawns + SpawnsOf(e));
      assert outs + Outs(q, es) == outs + OutsOf(q, e) + Outs(q1, es[1..]);
      assert spawns + Spawns(es) == spawns + SpawnsOf(e) + Spawns(es[1..]);
    }
  }

  /** In any run from boot, a tick that switches returns the frame that the chosen task was last switched out with,
      or its initial frame if it never ran, however the indices moved in between. */
  lemma ContextPreserved(es: seq<Event>, tf: TrapFrame)
    requires Inv(EMPTY) && Legal(EMPTY, es) && Switches(After(EMPTY, es))
    ensures var q := After(EMPTY, es);
            var id := q.tasks[Next(q)].id;
            id < |Spawns(es)| && Resumed(q, tf) == Expected(Outs(EMPTY, es), Spawns(es), id)
  {
    var q := After(EMPTY, es);
    SavedRun(EMPTY, es, [], []);
    assert [] + Outs(EMPTY, es) == Outs(EMPTY, es) && [] + Spawns(es) == Spawns(es);
    NextIsOther(q);
    NextInRange(q);
    hide Inv, Legal, After, Outs, Spawns, Expected, Switches, Next;
  }

  lemma NextInRange(q: Queue)
    requires Inv(q) && Switches(q)
    ensures q.tasks != [] && q.tasks[Next(q)].id < |q.tasks|
  {
  }
}

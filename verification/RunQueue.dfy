/** The scheduler's run queue: the operations that run under its lock, and the simple steps that they amount to in
    every reachable state. */
module RunQueue {

  import opened Wrappers
  import opened Context
  import opened Bits

  const DEFAULT_SLICE: nat := 5
  const IDLE_SLICE: nat := 0xFFFF_FFFF

  datatype TaskState = Ready | Running | Dead

  datatype Task = Task(id: nat, state: TaskState, slice: nat, trap: TrapFrame)

  datatype Queue = Queue(tasks: seq<Task>, current: Option<nat>, nextId: nat, needResched: bool)

  /** The queue that the first use of the lock creates. */
  const EMPTY: Queue := Queue([], None, 0, true)

  /* ------------------------------ Reachable states ------------------------------ */

  /** Ids count down from the front, slices stay in 1..=10 and are 5 for every task but the current one, the current
      index is in range, and exactly the current task is not Ready. */
  ghost predicate Inv(q: Queue) {
    && q.nextId == |q.tasks|
    && (forall i :: 0 <= i < |q.tasks| ==> q.tasks[i].id == |q.tasks| - 1 - i)
    && (forall i :: 0 <= i < |q.tasks| ==> 1 <= q.tasks[i].slice <= 10)
    && (forall i :: 0 <= i < |q.tasks| && q.current != Some(i) ==> q.tasks[i].slice == 5)
    && (q.current.Some? ==> q.current.value < |q.tasks|)
    && (forall i :: 0 <= i < |q.tasks| ==> (q.tasks[i].state == Ready <==> q.current != Some(i)))
  }

  /* ------------------------------ Steps ------------------------------ */

  /** A new task enters at the front; the current task keeps running at its shifted index. */
  function Spawned(q: Queue, trap: TrapFrame): Queue {
    Queue([Task(q.nextId, Ready, DEFAULT_SLICE, trap)] + q.tasks,
          if q.current.Some? then Some(q.current.value + 1) else None,
          q.nextId + 1, q.needResched)
  }

  /** The idle task enters like a spawned one, but the current index is not shifted. */
  function IdleInserted(q: Queue, trap: TrapFrame): Queue { Spawned(q, trap).(current := q.current) }

  /** The current task is marked Dead and gets a double slice. */
  function Killed(q: Queue): Queue
    requires q.current.Some? ==> q.current.value < |q.tasks|
  {
    if q.current == None then q
    else
      var c := q.current.value;
      q.(tasks := q.tasks[c := q.tasks[c].(state := Dead, slice := DEFAULT_SLICE * 2)])
  }

  /** Whether a timer tick moves the processor to another task: there is another one, and the slice ends now or a
      switch is overdue. */
  predicate Switches(q: Queue)
    requires q.current.Some? ==> q.current.value < |q.tasks|
  {
    if q.current == None then q.tasks != []
    else |q.tasks| > 1 && (q.needResched || q.tasks[q.current.value].slice == 1)
  }

  /** The task that a switch moves to: the next one round the ring. */
  function Next(q: Queue): (i: nat)
    requires q.tasks != []
    ensures i < |q.tasks|
  {
    if q.current == None then 0 else (q.current.value + 1) % |q.tasks|
  }

  function Ticked(q: Queue, tf: TrapFrame): Queue
    requires q.current.Some? ==> q.current.value < |q.tasks| && q.tasks[q.current.value].slice > 0
  {
    if Switches(q) then
      var parked := if q.current == None then q.tasks
                    else
                      var c := q.current.value;
                      q.tasks[c := q.tasks[c].(state := Ready, slice := DEFAULT_SLICE, trap := tf)];
      Queue(parked[Next(q) := parked[Next(q)].(state := Running)], Some(Next(q)), q.nextId, false)
    else if q.current == None then q.(needResched := true)
    else
      var c := q.current.value;
      var last := q.tasks[c].slice == 1;
      q.(tasks := q.tasks[c := q.tasks[c].(slice := if last then DEFAULT_SLICE else q.tasks[c].slice - 1)],
         needResched := q.needResched || last)
  }

  /** The frame that the interrupt returns to. */
  function Resumed(q: Queue, tf: TrapFrame): TrapFrame
    requires q.current.Some? ==> q.current.value < |q.tasks|
  {
    if Switches(q) then q.tasks[Next(q)].trap else tf
  }

  /* ------------------------------ The queue in memory ------------------------------ */

  class RunQueue {
    var tasks: seq<Task>
    var current: Option<nat>
    var nextId: nat
    var needResched: bool

    ghost function Value(): Queue
      reads this
    {
      Queue(tasks, current, nextId, needResched)
    }

    constructor ()
      ensures Value() == EMPTY && Inv(Value())
    {
      tasks, current, nextId, needResched := [], None, 0, true;
    }

    /** Scans forward from the current task for a Ready one, then falls back on the first task. */
    method PickNext() returns (r: Option<nat>)
      requires current.Some? ==> current.value < |tasks|
      ensures r.Some? ==> r.value < |tasks| && tasks[r.value].state == Ready
      ensures r == None ==> forall i :: 0 <= i < |tasks| ==> i == 0 || Some(i) == current || tasks[i].state != Ready
      ensures r == None && tasks != [] ==> tasks[0].state != Ready
      ensures current == None && r.Some? ==> forall i :: 0 <= i < r.value ==> tasks[i].state != Ready
      ensures current.Some? && r.Some? && r != current ==>
                forall i :: 0 <= i < |tasks| && Some(i) != current && tasks[i].state == Ready ==>
                  Ahead(|tasks|, current.value, r.value) <= Ahead(|tasks|, current.value, i)
      ensures current.Some? && r == current ==>
                r == Some(0) && forall i :: 0 < i < |tasks| ==> tasks[i].state != Ready
    {
      var n := |tasks|;
      if n == 0 {
        return None;
      }
      if current.Some? {
        var start := (current.value + 1) % n;
        var i := start;
        ghost var k := 0;
        while true
          invariant 0 <= k < n && 0 <= i < n && i == (current.value + 1 + k) % n
          invariant forall j :: 0 <= j < n && Ahead(n, current.value, j) < k ==>
                      Some(j) == current || tasks[j].state != Ready
          decreases n - k
        {
          RingStep(n, current.value, k);
          if i != current.value && tasks[i].state == Ready {
            return Some(i);
          }
          i := (i + 1) % n;
          k := k + 1;
          if i == start {
            break;
          }
        }
      } else {
        for i := 0 to n
          invariant forall j :: 0 <= j < i ==> tasks[j].state != Ready
        {
          if tasks[i].state == Ready {
            return Some(i);
          }
        }
      }
      if tasks[0].state == Ready {
        return Some(0);
      }
      r := None;
    }

    method SpawnKthread(trap: TrapFrame) returns (id: nat)
      modifies this
      ensures Value() == Spawned(old(Value()), trap) && id == old(nextId)
    {
      id := nextId;
      nextId := nextId + 1;
      tasks := [Task(id, Ready, DEFAULT_SLICE, trap)] + tasks;
      if current.Some? {
        current := Some(current.value + 1);
      }
    }

    /** The idle task that `init` puts in front: like a spawn, but without the index shift. */
    method InsertIdle(trap: TrapFrame)
      modifies this
      ensures Value() == IdleInserted(old(Value()), trap)
    {
      var id := nextId;
      nextId := nextId + 1;
      tasks := [Task(id, Ready, DEFAULT_SLICE, trap)] + tasks;
    }

    method KillCurrent()
      requires Inv(Value())
      modifies this
      ensures Value() == Killed(old(Value()))
    {
      if current.Some? {
        var c := current.value;
        tasks := tasks[c := tasks[c].(state := Dead, slice := DEFAULT_SLICE * 2)];
      }
    }

    /** First part of the tick: the current task pays for it. */
    method ChargeSlice()
      requires Inv(Value()) && current.Some?
      modifies this`tasks, this`needResched
      ensures var c := current.value;
              var last := old(tasks)[c].slice == 1;
              && tasks == old(tasks)[c := old(tasks)[c].(slice := if last then DEFAULT_SLICE else old(tasks)[c].slice - 1)]
              && needResched == (old(needResched) || last)
    {
      var c := current.value;
      var t := tasks[c];
      if t.slice != IDLE_SLICE && t.slice > 0 {
        t := t.(slice := t.slice - 1);
        if t.slice == 0 {
          t := t.(slice := DEFAULT_SLICE);
          needResched := true;
        }
        tasks := tasks[c := t];
      }
    }

    /** The timer interrupt. */
    method Tick(tf: TrapFrame) returns (ntf: TrapFrame)
      requires Inv(Value())
      modifies this
      ensures Value() == Ticked(old(Value()), tf) && ntf == Resumed(old(Value()), tf)
    {
      hide Ahead;
      var extra: bool;
      if current.Some? {
        ChargeSlice();
        var c := current.value;
        var curIsIdle := tasks[c].slice == IDLE_SLICE;
        var someReady := exists i :: 0 <= i < |tasks| && i != c && tasks[i].state == Ready;
        extra := curIsIdle && someReady;
      } else {
        needResched := true;
        extra := true;
      }
      if !(needResched || extra) {
        return tf;
      }
      var picked := PickNext();
      PickedIsNext(old(Value()), Value(), picked);
      if picked == None {
        return tf;
      }
      var next := picked.value;
      if current.Some? {
        var c := current.value;
        var t := tasks[c].(state := Ready);
        if t.slice != IDLE_SLICE {
          t := t.(slice := DEFAULT_SLICE);
        }
        tasks := tasks[c := t.(trap := tf)];
      }
      needResched := false;
      tasks := tasks[next := tasks[next].(state := Running)];
      current := Some(next);
      ntf := tasks[next].trap;
    }

    /** First pass of the reaper: ages the dead tasks and collects the expired ones. */
    method AgeDead() returns (deads: seq<nat>)
      modifies this`tasks
      ensures tasks == Aged(old(tasks)) && deads == Expired(old(tasks), |old(tasks)|)
    {
      deads := [];
      ghost var was := tasks;
      for i := 0 to |tasks|
        invariant |tasks| == |was| && deads == Expired(was, i)
        invariant forall j :: 0 <= j < |was| ==> tasks[j] == if j < i then AgedTask(was[j]) else was[j]
      {
        if tasks[i].state == Dead {
          if tasks[i].slice == 0 {
            deads := [tasks[i].id] + deads;
          } else {
            tasks := tasks[i := tasks[i].(slice := tasks[i].slice - 1)];
          }
        }
      }
      assert tasks == Aged(was);
    }

    /** The reaper's pass over the queue; false stands for the panic of an index out of range. */
    method Sweep() returns (ok: bool)
      requires DistinctIds(tasks)
      modifies this`tasks
      ensures var r := ReapAll(Aged(old(tasks)), Expired(old(tasks), |old(tasks)|));
              ok == r.Some? && (ok ==> tasks == r.value)
    {
      hide Reap, Expired, Aged;
      AgedDistinct(tasks);
      ghost var was := Aged(tasks);
      var deads := AgeDead();
      assert deads[0..] == deads;
      for k := 0 to |deads|
        invariant DistinctIds(tasks)
        invariant ReapAll(was, deads) == ReapAll(tasks, deads[k..])
      {
        var rest := ReapOne(tasks, deads[k]);
        if rest == None {
          return false;
        }
        assert deads[k..][1..] == deads[k + 1..];
        tasks := rest.value;
      }
      ok := true;
    }
  }

  lemma AgedDistinct(tasks: seq<Task>)
    requires DistinctIds(tasks)
    ensures DistinctIds(Aged(tasks))
  {
  }

  /** The removal of one id, as the second pass does it. */
  method ReapOne(tasks: seq<Task>, id: nat) returns (r: Option<seq<Task>>)
    requires DistinctIds(tasks)
    ensures r == Reap(tasks, id)
    ensures r == None <==> forall j :: 0 <= j < |tasks| ==> tasks[j].id == id
    ensures r.Some? ==> exists k :: && 0 <= k < |tasks| && tasks[k].id != id && (forall j :: 0 <= j < k ==> tasks[j].id == id)
                                    && r.value == tasks[..k] + tasks[k + 1..]
    ensures r.Some? ==> DistinctIds(r.value)
  {
    var i := 0;
    while i < |tasks| && id == tasks[i].id
      invariant 0 <= i <= |tasks| && i <= 1
      invariant i == 1 ==> tasks[0].id == id
    {
      i := i + 1;
    }
    if i == |tasks| {
      return None;
    }
    if i == 0 {
      assert tasks[..i] + tasks[i + 1..] == tasks[1..];
    } else {
      assert tasks[..i] + tasks[i + 1..] == [tasks[0]] + tasks[2..];
    }
    r := Some(tasks[..i] + tasks[i + 1..]);
  }

  /** In a reachable state the scan finds exactly the next task round the ring. */
  lemma PickedIsNext(q: Queue, now: Queue, picked: Option<nat>)
    requires Inv(q) && now.current == q.current && |now.tasks| == |q.tasks|
    requires forall i :: 0 <= i < |q.tasks| ==> now.tasks[i].state == q.tasks[i].state
    requires picked.Some? ==> picked.value < |q.tasks| && q.tasks[picked.value].state == Ready
    requires picked == None && q.tasks != [] ==>
               q.tasks[0].state != Ready && forall i :: 0 < i < |q.tasks| && Some(i) != q.current ==> q.tasks[i].state != Ready
    requires q.current == None && picked.Some? ==> forall i :: 0 <= i < picked.value ==> q.tasks[i].state != Ready
    requires q.current.Some? && picked.Some? && picked != q.current ==>
               forall i :: 0 <= i < |q.tasks| && Some(i) != q.current && q.tasks[i].state == Ready ==>
                 Ahead(|q.tasks|, q.current.value, picked.value) <= Ahead(|q.tasks|, q.current.value, i)
    ensures picked == (if q.tasks == [] || (q.current.Some? && |q.tasks| == 1) then None else Some(Next(q)))
  {
    if q.current.Some? && |q.tasks| > 1 {
      RingStep(|q.tasks|, q.current.value, 0);
      RingStep(|q.tasks|, q.current.value, |q.tasks| - 1);
      assert q.tasks[Next(q)].state == Ready;
      assert picked.Some? ==> picked != q.current;
      assert q.tasks[if q.current.value == 0 then 1 else 0].state == Ready;
    }
  }

  /** A tick keeps the invariant. */
  lemma TickInv(q: Queue, tf: TrapFrame)
    requires Inv(q)
    ensures q.current.Some? ==> q.tasks[q.current.value].slice > 0
    ensures Inv(Ticked(q, tf)) && |Ticked(q, tf).tasks| == |q.tasks|
    ensures q.current.Some? ==> Ticked(q, tf).current.Some?
    ensures Switches(q) ==> Ticked(q, tf).current == Some(Next(q)) && q.current != Some(Next(q))
  {
    if Switches(q) {
      NextIsOther(q);
    }
  }

  lemma SpawnInv(q: Queue, trap: TrapFrame)
    requires Inv(q)
    ensures Inv(Spawned(q, trap))
  {
    var q' := Spawned(q, trap);
    forall i | 0 <= i < |q'.tasks|
      ensures q'.tasks[i].id == |q'.tasks| - 1 - i && 1 <= q'.tasks[i].slice <= 10
      ensures q'.current != Some(i) ==> q'.tasks[i].slice == 5
      ensures q'.tasks[i].state == Ready <==> q'.current != Some(i)
    {
      assert i > 0 ==> q'.tasks[i] == q.tasks[i - 1];
    }
  }

  /** Without the shift the invariant survives if and only if nothing is current, and then the insertion is a spawn, so
      that runs from the empty queue include `init`. */
  lemma IdleInvIffNothingCurrent(q: Queue, trap: TrapFrame)
    requires Inv(q)
    ensures Inv(IdleInserted(q, trap)) <==> q.current == None
    ensures q.current == None ==> IdleInserted(q, trap) == Spawned(q, trap)
  {
    var q' := IdleInserted(q, trap);
    if q.current == None {
      SpawnInv(q, trap);
    } else {
      var c := q.current.value;
      assert q'.tasks[c] == if c == 0 then Task(q.nextId, Ready, DEFAULT_SLICE, trap) else q.tasks[c - 1];
      assert q'.tasks[c].state == Ready && q'.current == Some(c);
    }
  }

  lemma KillInv(q: Queue)
    requires Inv(q)
    ensures Inv(Killed(q)) && |Killed(q).tasks| == |q.tasks| && Killed(q).current == q.current
  {
  }

  lemma NextIsOther(q: Queue)
    requires Inv(q) && Switches(q)
    ensures q.current != Some(Next(q)) && q.tasks[Next(q)].state == Ready
    ensures q.current.Some? ==>
              q.tasks[Next(q)].id == if q.tasks[q.current.value].id == 0 then |q.tasks| - 1
                                     else q.tasks[q.current.value].id - 1
  {
    if q.current.Some? {
      WrapIsMod(|q.tasks|, q.current.value + 1);
    }
  }

  /* ------------------------------ Sweeping ------------------------------ */

  ghost predicate DistinctIds(tasks: seq<Task>) {
    forall i, j :: 0 <= i < j < |tasks| ==> tasks[i].id != tasks[j].id
  }

  /** First pass: a dead task with time left loses one unit. */
  function AgedTask(t: Task): Task {
    if t.state == Dead && t.slice > 0 then t.(slice := t.slice - 1) else t
  }

  function Aged(tasks: seq<Task>): seq<Task> {
    seq(|tasks|, i requires 0 <= i < |tasks| => AgedTask(tasks[i]))
  }

  /** First pass: ids of the dead tasks without time left among the first n, last one first. */
  function Expired(tasks: seq<Task>, n: nat): seq<nat>
    requires n <= |tasks|
  {
    if n == 0 then []
    else
      var t := tasks[n - 1];
      (if t.state == Dead && t.slice == 0 then [t.id] else []) + Expired(tasks, n - 1)
  }

  /** Second pass, one id: the search stops at the first task that does NOT carry the id, and that one is removed. */
  function Reap(tasks: seq<Task>, id: nat): Option<seq<Task>> {
    if tasks == [] then None
    else if tasks[0].id != id then Some(tasks[1..])
    else if |tasks| == 1 then None
    else Some([tasks[0]] + tasks[2..])
  }

  function ReapAll(tasks: seq<Task>, ids: seq<nat>): Option<seq<Task>>
    decreases |ids|
  {
    if ids == [] then Some(tasks)
    else
      match Reap(tasks, ids[0])
      case None => None
      case Some(rest) => ReapAll(rest, ids[1..])
  }

  /** The task whose id is searched for is never the one removed. */
  lemma ReapMissesItsTarget(tasks: seq<Task>, id: nat, k: nat)
    requires DistinctIds(tasks) && k < |tasks| && tasks[k].id == id && Reap(tasks, id).Some?
    ensures tasks[k] in Reap(tasks, id).value
  {
    var rest := Reap(tasks, id).value;
    if k == 0 {
      assert rest[0] == tasks[0];
    } else {
      assert rest[k - 1] == tasks[k];
    }
  }

  predicate ExpiredAt(tasks: seq<Task>, i: nat, id: nat)
    requires i < |tasks|
  {
    tasks[i].state == Dead && tasks[i].slice == 0 && tasks[i].id == id
  }

  lemma {:induction false} IsListed(tasks: seq<Task>, n: nat, i: nat)
    requires i < n <= |tasks| && tasks[i].state == Dead && tasks[i].slice == 0
    ensures tasks[i].id in Expired(tasks, n)
  {
    if i < n - 1 {
      IsListed(tasks, n - 1, i);
    }
  }

  lemma {:induction false} ListedFrom(tasks: seq<Task>, n: nat, id: nat) returns (i: nat)
    requires n <= |tasks| && id in Expired(tasks, n)
    ensures i < n && ExpiredAt(tasks, i, id)
  {
    i := n - 1;
    if !ExpiredAt(tasks, i, id) {
      i := ListedFrom(tasks, n - 1, id);
    }
  }

  /** The first pass lists exactly the dead tasks without time left. */
  lemma ExpiredMembers(tasks: seq<Task>, n: nat, id: nat)
    requires n <= |tasks|
    ensures id in Expired(tasks, n) <==> exists i :: 0 <= i < n && ExpiredAt(tasks, i, id)
  {
    if id in Expired(tasks, n) {
      var i := ListedFrom(tasks, n, id);
    }
    if i :| 0 <= i < n && ExpiredAt(tasks, i, id) {
      IsListed(tasks, n, i);
    }
    hide Expired, ExpiredAt;
  }

  /** The queue after k first passes. */
  function AgedBy(tasks: seq<Task>, k: nat): seq<Task> {
    if k == 0 then tasks else Aged(AgedBy(tasks, k - 1))
  }

  /** Only the time of dead tasks runs out, one unit a pass. */
  lemma {:induction false} AgedByAt(tasks: seq<Task>, k: nat, i: nat)
    requires i < |tasks|
    ensures |AgedBy(tasks, k)| == |tasks|
    ensures AgedBy(tasks, k)[i] ==
            if tasks[i].state == Dead then tasks[i].(slice := if tasks[i].slice < k then 0 else tasks[i].slice - k) else tasks[i]
  {
    if k != 0 {
      AgedByAt(tasks, k - 1, i);
    }
  }

  /** A dead task is listed for removal after exactly as many passes as it had units of time left. */
  lemma ListedAfter(tasks: seq<Task>, k: nat, i: nat)
    requires DistinctIds(tasks) && i < |tasks| && tasks[i].state == Dead
    ensures var now := AgedBy(tasks, k); tasks[i].id in Expired(now, |now|) <==> k >= tasks[i].slice
  {
    var now := AgedBy(tasks, k);
    AgedByAt(tasks, k, i);
    ExpiredMembers(now, |now|, tasks[i].id);
    assert ExpiredAt(now, i, tasks[i].id) <==> k >= tasks[i].slice;
    forall j | 0 <= j < |now| && now[j].id == tasks[i].id
      ensures j == i
    {
      AgedByAt(tasks, k, j);
    }
  }

  /** Each removal takes away one task. */
  lemma {:induction false} RemovalsCount(tasks: seq<Task>, ids: seq<nat>)
    ensures ReapAll(tasks, ids).Some? ==> |ReapAll(tasks, ids).value| + |ids| == |tasks|
    decreases |ids|
  {
    if ids != [] && Reap(tasks, ids[0]).Some? {
      RemovalsCount(Reap(tasks, ids[0]).value, ids[1..]);
    }
  }

  lemma {:induction false} NothingExpired(tasks: seq<Task>, n: nat)
    requires n <= |tasks| && forall i :: 0 <= i < |tasks| ==> tasks[i].state != Dead
    ensures Expired(tasks, n) == []
  {
    if n != 0 {
      NothingExpired(tasks, n - 1);
    }
  }

  /** In a reachable state, a sweep run by a Running task finds nothing dead and has no effect. */
  lemma SweepIsIdle(q: Queue)
    requires Inv(q) && q.current.Some? && q.tasks[q.current.value].state == Running
    ensures ReapAll(Aged(q.tasks), Expired(q.tasks, |q.tasks|)) == Some(q.tasks)
  {
    NothingExpired(q.tasks, |q.tasks|);
    assert Aged(q.tasks) == q.tasks;
  }

  /** How far index i is ahead of index c on a ring of n: 0 for the next index, n - 1 for c itself. */
  function Ahead(n: nat, c: nat, i: nat): (d: nat)
    requires c < n && i < n
    ensures d < n
  {
    if i > c then i - c - 1 else i + n - c - 1
  }

  function Wrap(n: nat, x: nat): nat
    requires n > 0 && x <= 2 * n
  {
    if x < n then x else if x < 2 * n then x - n else 0
  }

  lemma WrapIsMod(n: nat, x: nat)
    requires n > 0 && x <= 2 * n
    ensures x % n == Wrap(n, x)
  {
    assert x == n * (if x < n then 0 else if x < 2 * n then 1 else 2) + Wrap(n, x);
    ModOne(x, n, if x < n then 0 else if x < 2 * n then 1 else 2, Wrap(n, x));
  }

  lemma ModOne(x: nat, n: nat, q: nat, r: nat)
    requires n > 0 && r < n && q <= 2 && x == n * q + r
    ensures x % n == r
  {
    DivModUnique(x, n, q, r);
  }

  lemma RingStep(n: nat, c: nat, k: nat)
    requires c < n && k < n
    ensures var i := (c + 1 + k) % n; i < n && Ahead(n, c, i) == k
    ensures forall j :: 0 <= j < n && Ahead(n, c, j) == k ==> j == (c + 1 + k) % n
    ensures (c + 1 + k + 1) % n == ((c + 1 + k) % n + 1) % n
    ensures k + 1 < n <==> (c + 1 + k + 1) % n != (c + 1) % n
  {
    WrapIsMod(n, c + 1);
    WrapIsMod(n, c + 1 + k);
    WrapIsMod(n, c + 1 + k + 1);
    WrapIsMod(n, Wrap(n, c + 1 + k) + 1);
  }
}
